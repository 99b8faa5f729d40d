/**
  In-place Gauss-Jordan inversion (core-supervisor/src/fec_engine.rs, `invert_matrix`), proved
  exact over every field of characteristic two: it returns an inverse, or the matrix is singular.
 */
module GaussJordan {
  import opened Field
  import opened LinearAlgebra
  import opened Options

  /** A row of the working matrix is what the row of the companion makes of the original matrix. */
  ghost predicate RowTracks<T(!new)>(F: Field<T>, a0: Matrix<T>, n: nat, row: Vector<T>, inv: Vector<T>)
    requires IsSquare(a0, n) && |row| == n && |inv| == n
  {
    forall x: Vector<T> | |x| == n :: Dot(F, row, x, n) == Dot(F, inv, Apply(F, a0, x), n)
  }

  ghost predicate Annihilates<T>(F: Field<T>, a: Matrix<T>, n: nat, x: Vector<T>)
    requires IsSquare(a, n) && |x| == n
  {
    forall r :: 0 <= r < n ==> Dot(F, a[r], x, n) == F.zero
  }

  /** A matrix with a non-zero null vector. */
  ghost predicate Singular<T(!new)>(F: Field<T>, a: Matrix<T>, n: nat)
    requires IsSquare(a, n)
  {
    exists x: Vector<T> | |x| == n :: !IsZero(F, x) && Annihilates(F, a, n, x)
  }

  /** inv recovers every vector from its image under a. */
  ghost predicate Inverts<T(!new)>(F: Field<T>, inv: Matrix<T>, a: Matrix<T>, n: nat)
    requires IsSquare(a, n) && IsSquare(inv, n)
  {
    forall x: Vector<T> | |x| == n :: Apply(F, inv, Apply(F, a, x)) == x
  }

  ghost predicate NullSpaceWithin<T(!new)>(F: Field<T>, a: Matrix<T>, b: Matrix<T>, n: nat)
    requires IsSquare(a, n) && IsSquare(b, n)
  {
    forall x: Vector<T> | |x| == n :: Annihilates(F, a, n, x) ==> Annihilates(F, b, n, x)
  }

  ghost predicate RowsTrack<T(!new)>(F: Field<T>, a0: Matrix<T>, a: Matrix<T>, inv: Matrix<T>, n: nat)
    requires IsSquare(a0, n) && IsSquare(a, n) && IsSquare(inv, n)
  {
    forall r :: 0 <= r < n ==> RowTracks(F, a0, n, a[r], inv[r])
  }

  /** What every elementary row operation keeps. */
  ghost predicate Tracks<T(!new)>(F: Field<T>, a0: Matrix<T>, a: Matrix<T>, inv: Matrix<T>, n: nat)
    requires IsSquare(a0, n)
  {
    && IsSquare(a, n) && IsSquare(inv, n)
    && RowsTrack(F, a0, a, inv, n)
    && NullSpaceWithin(F, a, a0, n)
    && NullSpaceWithin(F, inv, Identity(F, n), n)
  }

  /** The first `cols` columns are those of the identity. */
  ghost predicate Reduced<T>(F: Field<T>, a: Matrix<T>, n: nat, cols: nat)
    requires IsSquare(a, n) && cols <= n
  {
    forall r, c :: 0 <= r < n && 0 <= c < cols ==> a[r][c] == if r == c then F.one else F.zero
  }

  /** Rows below `upto`, other than `col` itself, are zero in column `col`. */
  ghost predicate Cleared<T>(F: Field<T>, a: Matrix<T>, n: nat, col: nat, upto: nat)
    requires IsSquare(a, n) && col < n && upto <= n
  {
    && a[col][col] == F.one
    && forall r :: 0 <= r < upto && r != col ==> a[r][col] == F.zero
  }

  function Scale<T>(F: Field<T>, u: Vector<T>, k: T): (w: Vector<T>) {
    seq(|u|, i requires 0 <= i < |u| => F.mul(u[i], k))
  }

  function AddMultiple<T>(F: Field<T>, u: Vector<T>, k: T, v: Vector<T>): (w: Vector<T>)
    requires |u| == |v|
  {
    seq(|u|, i requires 0 <= i < |u| => F.add(u[i], F.mul(k, v[i])))
  }

  lemma DotScale<T(!new)>(F: Field<T>, u: Vector<T>, k: T, x: Vector<T>, n: nat)
    requires IsField(F)
    requires |u| == |x| == n
    ensures Dot(F, Scale(F, u, k), x, n) == F.mul(k, Dot(F, u, x, n))
  {
    var w := Scale(F, u, k);
    forall i | 0 <= i < n ensures F.mul(w[i], x[i]) == F.mul(k, F.mul(u[i], x[i])) {
      LawsAt(F, k, u[i], x[i]);
    }
    DotOfMultiples(F, w, x, k, u, x, n);
  }

  lemma DotAddMultiple<T(!new)>(F: Field<T>, u: Vector<T>, k: T, v: Vector<T>, x: Vector<T>, n: nat)
    requires IsField(F)
    requires |u| == |v| == |x| == n
    ensures Dot(F, AddMultiple(F, u, k, v), x, n) == F.add(Dot(F, u, x, n), F.mul(k, Dot(F, v, x, n)))
  {
    var w, s := AddMultiple(F, u, k, v), Scale(F, v, k);
    forall i | 0 <= i < n ensures F.mul(w[i], x[i]) == F.add(F.mul(u[i], x[i]), F.mul(s[i], x[i])) {
      LawsAt(F, x[i], u[i], s[i]);
      LawsAt(F, w[i], x[i], s[i]);
      LawsAt(F, k, v[i], s[i]);
      LawsAt(F, s[i], x[i], x[i]);
    }
    DotOfSums(F, w, x, u, x, s, x, n);
    DotScale(F, v, k, x, n);
  }

  lemma TracksInitially<T(!new)>(F: Field<T>, a0: Matrix<T>, n: nat)
    requires IsField(F)
    requires IsSquare(a0, n)
    ensures Tracks(F, a0, a0, Identity(F, n), n)
  {
    forall r, x: Vector<T> | 0 <= r < n && |x| == n
      ensures Dot(F, a0[r], x, n) == Dot(F, Identity(F, n)[r], Apply(F, a0, x), n)
    {
      DotUnit(F, n, r, Apply(F, a0, x));
    }
  }

  /** b is a with rows p and q exchanged. */
  ghost predicate Swapped<T>(a: Matrix<T>, b: Matrix<T>, n: nat, p: nat, q: nat)
    requires |a| == n && p < n && q < n
  {
    && |b| == n && b[p] == a[q] && b[q] == a[p]
    && forall r :: 0 <= r < n && r != p && r != q ==> b[r] == a[r]
  }

  lemma SwapNullSpace<T(!new)>(F: Field<T>, a: Matrix<T>, b: Matrix<T>, n: nat, p: nat, q: nat)
    requires IsSquare(a, n) && p < n && q < n && Swapped(a, b, n, p, q)
    ensures IsSquare(b, n) && NullSpaceWithin(F, b, a, n)
  {
    forall x: Vector<T>, r | |x| == n && Annihilates(F, b, n, x) && 0 <= r < n ensures Dot(F, a[r], x, n) == F.zero {
      var r' := if r == p then q else if r == q then p else r;
      assert Dot(F, b[r'], x, n) == F.zero;
    }
  }

  lemma SwapTracks<T(!new)>(F: Field<T>, a0: Matrix<T>, a: Matrix<T>, inv: Matrix<T>,
                            b: Matrix<T>, inv': Matrix<T>, n: nat, p: nat, q: nat)
    requires IsSquare(a0, n) && Tracks(F, a0, a, inv, n)
    requires p < n && q < n && Swapped(a, b, n, p, q) && Swapped(inv, inv', n, p, q)
    ensures Tracks(F, a0, b, inv', n)
  {
    SwapNullSpace(F, a, b, n, p, q);
    NullSpaceTransitive(F, b, a, a0, n);
    SwapNullSpace(F, inv, inv', n, p, q);
    NullSpaceTransitive(F, inv', inv, Identity(F, n), n);
    forall r | 0 <= r < n ensures |inv'[r]| == n && RowTracks(F, a0, n, b[r], inv'[r]) {
      var r' := if r == p then q else if r == q then p else r;
      assert RowTracks(F, a0, n, a[r'], inv[r']);
    }
  }

  lemma NullSpaceTransitive<T(!new)>(F: Field<T>, a: Matrix<T>, b: Matrix<T>, c: Matrix<T>, n: nat)
    requires IsSquare(a, n) && IsSquare(b, n) && IsSquare(c, n)
    requires NullSpaceWithin(F, a, b, n) && NullSpaceWithin(F, b, c, n)
    ensures NullSpaceWithin(F, a, c, n)
  {
  }

  lemma UpdateRowsTrack<T(!new)>(F: Field<T>, a0: Matrix<T>, a: Matrix<T>, inv: Matrix<T>, n: nat, p: nat,
                                 b: Matrix<T>, inv': Matrix<T>)
    requires IsSquare(a0, n) && IsSquare(a, n) && IsSquare(inv, n) && IsSquare(b, n) && IsSquare(inv', n) && p < n
    requires RowsTrack(F, a0, a, inv, n) && RowTracks(F, a0, n, b[p], inv'[p])
    requires forall r :: 0 <= r < n && r != p ==> b[r] == a[r]
    requires forall r :: 0 <= r < n && r != p ==> inv'[r] == inv[r]
    ensures RowsTrack(F, a0, b, inv', n)
  {
    forall r | 0 <= r < n ensures RowTracks(F, a0, n, b[r], inv'[r]) {
      if r != p {
        assert RowTracks(F, a0, n, a[r], inv[r]);
      }
    }
  }

  /** Replacing one row keeps Tracks if the new row tracks and no null vector is gained. */
  lemma UpdateTracks<T(!new)>(F: Field<T>, a0: Matrix<T>, a: Matrix<T>, inv: Matrix<T>, n: nat, p: nat,
                              b: Matrix<T>, inv': Matrix<T>)
    requires IsSquare(a0, n) && Tracks(F, a0, a, inv, n) && IsSquare(b, n) && IsSquare(inv', n) && p < n
    requires RowTracks(F, a0, n, b[p], inv'[p])
    requires forall r :: 0 <= r < n && r != p ==> b[r] == a[r]
    requires forall r :: 0 <= r < n && r != p ==> inv'[r] == inv[r]
    requires NullSpaceWithin(F, b, a, n) && NullSpaceWithin(F, inv', inv, n)
    ensures Tracks(F, a0, b, inv', n)
  {
    UpdateRowsTrack(F, a0, a, inv, n, p, b, inv');
    NullSpaceTransitive(F, b, a, a0, n);
    NullSpaceTransitive(F, inv', inv, Identity(F, n), n);
  }

  /** Scaling a row by a non-zero factor gains no null vector, */
  lemma ScaleNullSpace<T(!new)>(F: Field<T>, a: Matrix<T>, n: nat, p: nat, k: T)
    requires IsField(F) && IsSquare(a, n) && p < n && k != F.zero
    ensures NullSpaceWithin(F, a[p := Scale(F, a[p], k)], a, n)
  {
    var b := a[p := Scale(F, a[p], k)];
    forall x: Vector<T>, r | |x| == n && Annihilates(F, b, n, x) && 0 <= r < n ensures Dot(F, a[r], x, n) == F.zero {
      assert Dot(F, b[r], x, n) == F.zero;
      if r == p {
        DotScale(F, a[p], k, x, n);
        ZeroProduct(F, k, Dot(F, a[p], x, n));
      }
    }
  }

  /** nor does adding a multiple of another row. */
  lemma AddMultipleNullSpace<T(!new)>(F: Field<T>, a: Matrix<T>, n: nat, p: nat, k: T, q: nat)
    requires IsField(F) && IsSquare(a, n) && p < n && q < n && p != q
    ensures NullSpaceWithin(F, a[p := AddMultiple(F, a[p], k, a[q])], a, n)
  {
    var b := a[p := AddMultiple(F, a[p], k, a[q])];
    forall x: Vector<T>, r | |x| == n && Annihilates(F, b, n, x) && 0 <= r < n ensures Dot(F, a[r], x, n) == F.zero {
      assert Dot(F, b[r], x, n) == F.zero;
      if r == p {
        assert Dot(F, b[q], x, n) == F.zero;
        DotAddMultiple(F, a[p], k, a[q], x, n);
        MulZero(F, k);
        LawsAt(F, Dot(F, a[p], x, n), F.zero, F.zero);
      }
    }
  }

  lemma UpdatedRows<T>(a: Matrix<T>, n: nat, p: nat, row: Vector<T>)
    requires IsSquare(a, n) && p < n && |row| == n
    ensures var b := a[p := row];
            IsSquare(b, n) && b[p] == row && forall r :: 0 <= r < n && r != p ==> b[r] == a[r]
  {
  }

  lemma ScaleRowTracks<T(!new)>(F: Field<T>, a0: Matrix<T>, n: nat, u: Vector<T>, k: T, iu: Vector<T>)
    requires IsField(F) && IsSquare(a0, n) && |u| == n && |iu| == n && RowTracks(F, a0, n, u, iu)
    ensures RowTracks(F, a0, n, Scale(F, u, k), Scale(F, iu, k))
  {
    var row, irow := Scale(F, u, k), Scale(F, iu, k);
    forall x: Vector<T> | |x| == n ensures Dot(F, row, x, n) == Dot(F, irow, Apply(F, a0, x), n) {
      DotScale(F, u, k, x, n);
      DotScale(F, iu, k, Apply(F, a0, x), n);
    }
  }

  lemma ScaleTracks<T(!new)>(F: Field<T>, a0: Matrix<T>, a: Matrix<T>, inv: Matrix<T>, n: nat, p: nat, k: T)
    requires IsField(F)
    requires IsSquare(a0, n) && Tracks(F, a0, a, inv, n)
    requires p < n && k != F.zero
    ensures Tracks(F, a0, a[p := Scale(F, a[p], k)], inv[p := Scale(F, inv[p], k)], n)
  {
    var row, irow := Scale(F, a[p], k), Scale(F, inv[p], k);
    ScaleRowTracks(F, a0, n, a[p], k, inv[p]);
    ScaleNullSpace(F, a, n, p, k);
    ScaleNullSpace(F, inv, n, p, k);
    UpdatedRows(a, n, p, row);
    UpdatedRows(inv, n, p, irow);
    UpdateTracks(F, a0, a, inv, n, p, a[p := row], inv[p := irow]);
  }

  lemma AddMultipleRowTracks<T(!new)>(F: Field<T>, a0: Matrix<T>, n: nat, u: Vector<T>, v: Vector<T>, k: T,
                                      iu: Vector<T>, iv: Vector<T>)
    requires IsField(F) && IsSquare(a0, n) && |u| == n && |v| == n && |iu| == n && |iv| == n
    requires RowTracks(F, a0, n, u, iu) && RowTracks(F, a0, n, v, iv)
    ensures RowTracks(F, a0, n, AddMultiple(F, u, k, v), AddMultiple(F, iu, k, iv))
  {
    var row, irow := AddMultiple(F, u, k, v), AddMultiple(F, iu, k, iv);
    forall x: Vector<T> | |x| == n ensures Dot(F, row, x, n) == Dot(F, irow, Apply(F, a0, x), n) {
      DotAddMultiple(F, u, k, v, x, n);
      DotAddMultiple(F, iu, k, iv, Apply(F, a0, x), n);
    }
  }

  lemma AddMultipleTracks<T(!new)>(F: Field<T>, a0: Matrix<T>, a: Matrix<T>, inv: Matrix<T>, n: nat, p: nat, k: T,
                                   q: nat)
    requires IsField(F)
    requires IsSquare(a0, n) && Tracks(F, a0, a, inv, n)
    requires p < n && q < n && p != q
    ensures Tracks(F, a0, a[p := AddMultiple(F, a[p], k, a[q])], inv[p := AddMultiple(F, inv[p], k, inv[q])], n)
  {
    var row, irow := AddMultiple(F, a[p], k, a[q]), AddMultiple(F, inv[p], k, inv[q]);
    AddMultipleRowTracks(F, a0, n, a[p], a[q], k, inv[p], inv[q]);
    AddMultipleNullSpace(F, a, n, p, k, q);
    AddMultipleNullSpace(F, inv, n, p, k, q);
    UpdatedRows(a, n, p, row);
    UpdatedRows(inv, n, p, irow);
    UpdateTracks(F, a0, a, inv, n, p, a[p := row], inv[p := irow]);
  }

  /** The null vector that a column without a pivot gives away. */
  ghost function PivotlessVector<T>(F: Field<T>, a: Matrix<T>, n: nat, col: nat): (x: Vector<T>)
    requires IsSquare(a, n) && col < n
  {
    seq(n, c requires 0 <= c < n => if c < col then a[c][col] else if c == col then F.one else F.zero)
  }

  lemma PivotlessIsNull<T(!new)>(F: Field<T>, a: Matrix<T>, n: nat, col: nat)
    requires IsField(F)
    requires IsSquare(a, n) && col < n && Reduced(F, a, n, col)
    requires forall r :: col <= r < n ==> a[r][col] == F.zero
    ensures Annihilates(F, a, n, PivotlessVector(F, a, n, col))
  {
    var x := PivotlessVector(F, a, n, col);
    forall r | 0 <= r < n ensures Dot(F, a[r], x, n) == F.zero {
      // x == head + unit(col), where head carries only the entries before col.
      var e := Unit(F, n, col);
      var head := seq(n, c requires 0 <= c < n => if c < col then a[c][col] else F.zero);
      forall i | 0 <= i < n ensures F.mul(a[r][i], x[i]) == F.add(F.mul(a[r][i], head[i]), F.mul(a[r][i], e[i])) {
        LawsAt(F, a[r][i], head[i], e[i]);
        LawsAt(F, head[i], F.zero, e[i]);
        LawsAt(F, F.zero, e[i], e[i]);
        LawsAt(F, e[i], F.zero, e[i]);
      }
      DotOfSums(F, a[r], x, a[r], head, a[r], e, n);
      DotUnit(F, n, col, a[r]);
      forall i | 0 <= i < n && i != r ensures F.mul(a[r][i], head[i]) == F.zero {
        if i < col {
          assert a[r][i] == F.zero;
        }
        MulZero(F, head[i]);
        MulZero(F, a[r][i]);
      }
      DotOfSingleton(F, a[r], head, r, n);
      LawsAt(F, head[r], F.one, head[r]);
      LawsAt(F, F.one, head[r], head[r]);
      MulZero(F, a[r][r]);
      LawsAt(F, F.zero, F.zero, F.zero);
    }
  }

  lemma ReducedRow<T(!new)>(F: Field<T>, a: Matrix<T>, n: nat, r: nat)
    requires IsSquare(a, n) && Reduced(F, a, n, n) && r < n
    ensures a[r] == Unit(F, n, r)
  {
  }

  lemma TrackedEntry<T(!new)>(F: Field<T>, a0: Matrix<T>, row: Vector<T>, inv: Vector<T>, n: nat, x: Vector<T>, r: nat)
    requires IsField(F) && IsSquare(a0, n) && |row| == n && |inv| == n && RowTracks(F, a0, n, row, inv)
    requires row == Unit(F, n, r) && |x| == n && r < n
    ensures Dot(F, inv, Apply(F, a0, x), n) == x[r]
  {
    DotUnit(F, n, r, x);
  }

  lemma ReducedInverts<T(!new)>(F: Field<T>, a0: Matrix<T>, a: Matrix<T>, inv: Matrix<T>, n: nat)
    requires IsField(F)
    requires IsSquare(a0, n) && Tracks(F, a0, a, inv, n) && Reduced(F, a, n, n)
    ensures Inverts(F, inv, a0, n)
  {
    forall x: Vector<T> | |x| == n ensures Apply(F, inv, Apply(F, a0, x)) == x {
      forall r | 0 <= r < n ensures Dot(F, inv[r], Apply(F, a0, x), n) == x[r] {
        ReducedRow(F, a, n, r);
        TrackedEntry(F, a0, a[r], inv[r], n, x, r);
      }
    }
  }

  lemma DotOfDifference<T(!new)>(F: Field<T>, u: Vector<T>, y: Vector<T>, z: Vector<T>, n: nat)
    requires IsField(F) && |u| == |y| == |z| == n && Dot(F, u, y, n) == Dot(F, u, z, n)
    ensures Dot(F, u, AddMultiple(F, y, F.one, z), n) == F.zero
  {
    var d := AddMultiple(F, y, F.one, z);
    forall i | 0 <= i < n ensures F.mul(u[i], d[i]) == F.add(F.mul(u[i], y[i]), F.mul(u[i], z[i])) {
      LawsAt(F, z[i], F.one, z[i]);
      LawsAt(F, F.one, z[i], z[i]);
      LawsAt(F, u[i], y[i], z[i]);
    }
    DotOfSums(F, u, d, u, y, u, z, n);
    LawsAt(F, Dot(F, u, y, n), F.zero, F.zero);
  }

  lemma OneToOne<T(!new)>(F: Field<T>, inv: Matrix<T>, n: nat, y: Vector<T>, z: Vector<T>)
    requires IsField(F) && IsSquare(inv, n) && NullSpaceWithin(F, inv, Identity(F, n), n)
    requires |y| == n && |z| == n && Apply(F, inv, y) == Apply(F, inv, z)
    ensures y == z
  {
    var d := AddMultiple(F, y, F.one, z);
    forall r | 0 <= r < n ensures Dot(F, inv[r], d, n) == F.zero {
      assert Apply(F, inv, y)[r] == Apply(F, inv, z)[r];
      DotOfDifference(F, inv[r], y, z, n);
    }
    assert Annihilates(F, inv, n, d) && Annihilates(F, Identity(F, n), n, d);
    forall i | 0 <= i < n ensures y[i] == z[i] {
      assert Dot(F, Identity(F, n)[i], d, n) == F.zero;
      DotUnit(F, n, i, d);
      LawsAt(F, z[i], F.one, z[i]);
      LawsAt(F, F.one, z[i], z[i]);
      AddZero(F, y[i], z[i]);
    }
  }

  /** A left inverse that maps no two vectors to one is a right inverse too. */
  lemma InvertsBack<T(!new)>(F: Field<T>, inv: Matrix<T>, a: Matrix<T>, n: nat)
    requires IsField(F) && IsSquare(a, n) && IsSquare(inv, n)
    requires Inverts(F, inv, a, n) && NullSpaceWithin(F, inv, Identity(F, n), n)
    ensures Inverts(F, a, inv, n)
  {
    forall y: Vector<T> | |y| == n ensures Apply(F, a, Apply(F, inv, y)) == y {
      var x := Apply(F, inv, y);
      assert Apply(F, inv, Apply(F, a, x)) == x;
      OneToOne(F, inv, n, Apply(F, a, x), y);
    }
  }

  /** An inverting matrix is a left inverse in the usual sense: the product is the identity. */
  lemma InvertsIsLeftInverse<T(!new)>(F: Field<T>, inv: Matrix<T>, a: Matrix<T>, n: nat)
    requires IsField(F)
    requires IsSquare(a, n) && IsSquare(inv, n) && Inverts(F, inv, a, n)
    ensures Product(F, inv, a, n) == Identity(F, n)
  {
    forall r, c | 0 <= r < n && 0 <= c < n ensures Dot(F, inv[r], Column(a, c), n) == Unit(F, n, r)[c] {
      ProductEntry(F, inv, a, n, r, c);
    }
    forall r | 0 <= r < n ensures Product(F, inv, a, n)[r] == Unit(F, n, r) {
    }
  }

  lemma ApplyUnit<T(!new)>(F: Field<T>, a: Matrix<T>, n: nat, c: nat)
    requires IsField(F) && IsSquare(a, n) && c < n
    ensures Apply(F, a, Unit(F, n, c)) == Column(a, c)
  {
    forall i | 0 <= i < n ensures Dot(F, a[i], Unit(F, n, c), n) == a[i][c] {
      DotUnit(F, n, c, a[i]);
    }
  }

  lemma AppliedAt<T(!new)>(F: Field<T>, inv: Matrix<T>, a: Matrix<T>, n: nat, x: Vector<T>, r: nat)
    requires IsSquare(a, n) && IsSquare(inv, n) && Inverts(F, inv, a, n) && |x| == n && r < n
    ensures Dot(F, inv[r], Apply(F, a, x), n) == x[r]
  {
    var y := Apply(F, a, x);
    assert Apply(F, inv, y) == x;
    assert Apply(F, inv, y)[r] == Dot(F, inv[r], y, n);
  }

  lemma ProductEntry<T(!new)>(F: Field<T>, inv: Matrix<T>, a: Matrix<T>, n: nat, r: nat, c: nat)
    requires IsField(F) && r < n && c < n
    requires IsSquare(a, n) && IsSquare(inv, n) && Inverts(F, inv, a, n)
    ensures Dot(F, inv[r], Column(a, c), n) == Unit(F, n, r)[c]
  {
    ApplyUnit(F, a, n, c);
    AppliedAt(F, inv, a, n, Unit(F, n, c), r);
  }

  lemma NullIsZero<T(!new)>(F: Field<T>, inv: Matrix<T>, a: Matrix<T>, n: nat, x: Vector<T>)
    requires IsField(F)
    requires IsSquare(a, n) && IsSquare(inv, n) && Inverts(F, inv, a, n)
    requires |x| == n && Annihilates(F, a, n, x)
    ensures IsZero(F, x)
  {
    var y := Apply(F, a, x);
    forall r | 0 <= r < n ensures x[r] == F.zero {
      DotZero(F, inv[r], y, n);
      AppliedAt(F, inv, a, n, x, r);
    }
  }

  /** A matrix with a left inverse is not singular, so the two outcomes exclude each other. */
  lemma InvertsNotSingular<T(!new)>(F: Field<T>, inv: Matrix<T>, a: Matrix<T>, n: nat)
    requires IsField(F)
    requires IsSquare(a, n) && IsSquare(inv, n) && Inverts(F, inv, a, n)
    ensures !Singular(F, a, n)
  {
    forall x: Vector<T> | |x| == n && Annihilates(F, a, n, x) ensures IsZero(F, x) {
      NullIsZero(F, inv, a, n, x);
    }
  }

  /** First row at or below `col` with a non-zero entry in column `col`, or n. */
  method FindPivot<T(==)>(F: Field<T>, a: Matrix<T>, n: nat, col: nat) returns (pivot: nat)
    requires IsSquare(a, n) && col < n
    ensures col <= pivot <= n
    ensures forall r :: col <= r < pivot ==> a[r][col] == F.zero
    ensures pivot < n ==> a[pivot][col] != F.zero
  {
    pivot := col;
    while pivot < n && a[pivot][col] == F.zero
      invariant col <= pivot <= n
      invariant forall r :: col <= r < pivot ==> a[r][col] == F.zero
    {
      pivot := pivot + 1;
    }
  }

  method NormaliseRow<T>(F: Field<T>, a: Matrix<T>, inv: Matrix<T>, n: nat, col: nat, k: T)
    returns (a': Matrix<T>, inv': Matrix<T>)
    requires IsSquare(a, n) && IsSquare(inv, n) && col < n
    ensures a' == a[col := Scale(F, a[col], k)]
    ensures inv' == inv[col := Scale(F, inv[col], k)]
  {
    a', inv' := a, inv;
    for j := 0 to n
      invariant IsSquare(a', n) && IsSquare(inv', n)
      invariant forall r :: 0 <= r < n && r != col ==> a'[r] == a[r] && inv'[r] == inv[r]
      invariant forall i :: 0 <= i < j ==> a'[col][i] == F.mul(a[col][i], k) && inv'[col][i] == F.mul(inv[col][i], k)
      invariant forall i :: j <= i < n ==> a'[col][i] == a[col][i] && inv'[col][i] == inv[col][i]
    {
      a' := a'[col := a'[col][j := F.mul(a'[col][j], k)]];
      inv' := inv'[col := inv'[col][j := F.mul(inv'[col][j], k)]];
    }
    assert a'[col] == Scale(F, a[col], k) && inv'[col] == Scale(F, inv[col], k);
  }

  method EliminateRow<T>(F: Field<T>, a: Matrix<T>, inv: Matrix<T>, n: nat, r: nat, col: nat)
    returns (a': Matrix<T>, inv': Matrix<T>)
    requires IsSquare(a, n) && IsSquare(inv, n) && r < n && col < n && r != col
    ensures a' == a[r := AddMultiple(F, a[r], a[r][col], a[col])]
    ensures inv' == inv[r := AddMultiple(F, inv[r], a[r][col], inv[col])]
  {
    var factor := a[r][col];
    a', inv' := a, inv;
    for j := 0 to n
      invariant IsSquare(a', n) && IsSquare(inv', n)
      invariant forall q :: 0 <= q < n && q != r ==> a'[q] == a[q] && inv'[q] == inv[q]
      invariant forall i :: 0 <= i < j ==> a'[r][i] == F.add(a[r][i], F.mul(factor, a[col][i]))
      invariant forall i :: 0 <= i < j ==> inv'[r][i] == F.add(inv[r][i], F.mul(factor, inv[col][i]))
      invariant forall i :: j <= i < n ==> a'[r][i] == a[r][i] && inv'[r][i] == inv[r][i]
    {
      a' := a'[r := a'[r][j := F.add(a'[r][j], F.mul(factor, a'[col][j]))]];
      inv' := inv'[r := inv'[r][j := F.add(inv'[r][j], F.mul(factor, inv'[col][j]))]];
    }
    assert a'[r] == AddMultiple(F, a[r], factor, a[col]) && inv'[r] == AddMultiple(F, inv[r], factor, inv[col]);
  }

  lemma ScaleReduced<T(!new)>(F: Field<T>, a: Matrix<T>, n: nat, col: nat, k: T)
    requires IsField(F)
    requires IsSquare(a, n) && col < n && Reduced(F, a, n, col)
    ensures Reduced(F, a[col := Scale(F, a[col], k)], n, col)
  {
    MulZero(F, k);
  }

  lemma EliminateReduced<T(!new)>(F: Field<T>, a: Matrix<T>, n: nat, col: nat, r: nat)
    requires IsField(F)
    requires IsSquare(a, n) && col < n && r < n && r != col
    requires Reduced(F, a, n, col) && Cleared(F, a, n, col, r)
    ensures var b := a[r := AddMultiple(F, a[r], a[r][col], a[col])];
            Reduced(F, b, n, col) && Cleared(F, b, n, col, r + 1)
  {
    var f := a[r][col];
    MulZero(F, f);
    LawsAt(F, f, F.one, F.one);
    forall c | 0 <= c < col ensures F.add(a[r][c], F.mul(f, a[col][c])) == a[r][c] {
      LawsAt(F, a[r][c], F.zero, F.zero);
    }
  }

  /** What the elimination of column `col` has achieved before row r. */
  ghost predicate ClearedTo<T(!new)>(F: Field<T>, a0: Matrix<T>, a: Matrix<T>, inv: Matrix<T>, n: nat, col: nat, r: nat)
    requires IsSquare(a0, n) && col < n && r <= n
  {
    Tracks(F, a0, a, inv, n) && Reduced(F, a, n, col) && Cleared(F, a, n, col, r)
  }

  lemma ClearedNext<T>(F: Field<T>, a: Matrix<T>, n: nat, col: nat, r: nat)
    requires IsSquare(a, n) && col < n && r < n && Cleared(F, a, n, col, r) && (r == col || a[r][col] == F.zero)
    ensures Cleared(F, a, n, col, r + 1)
  {
  }

  lemma SkipRow<T(!new)>(F: Field<T>, a0: Matrix<T>, a: Matrix<T>, inv: Matrix<T>, n: nat, col: nat, r: nat)
    requires IsSquare(a0, n) && col < n && r < n && ClearedTo(F, a0, a, inv, n, col, r)
    requires r == col || a[r][col] == F.zero
    ensures ClearedTo(F, a0, a, inv, n, col, r + 1)
  {
    ClearedNext(F, a, n, col, r);
  }

  lemma ClearRow<T(!new)>(F: Field<T>, a0: Matrix<T>, a: Matrix<T>, inv: Matrix<T>, n: nat, col: nat, r: nat,
                          b: Matrix<T>, inv': Matrix<T>)
    requires IsField(F) && IsSquare(a0, n) && col < n && r < n && r != col && ClearedTo(F, a0, a, inv, n, col, r)
    requires b == a[r := AddMultiple(F, a[r], a[r][col], a[col])]
    requires inv' == inv[r := AddMultiple(F, inv[r], a[r][col], inv[col])]
    ensures ClearedTo(F, a0, b, inv', n, col, r + 1)
  {
    AddMultipleTracks(F, a0, a, inv, n, r, a[r][col], col);
    EliminateReduced(F, a, n, col, r);
  }

  lemma AllCleared<T(!new)>(F: Field<T>, a0: Matrix<T>, a: Matrix<T>, inv: Matrix<T>, n: nat, col: nat)
    requires IsSquare(a0, n) && col < n && ClearedTo(F, a0, a, inv, n, col, n)
    ensures Reduced(F, a, n, col + 1)
  {
  }

  /** Row r of the elimination of column `col`. */
  method ClearOneRow<T(==, !new)>(F: Field<T>, ghost a0: Matrix<T>, a: Matrix<T>, inv: Matrix<T>, n: nat, col: nat,
                                  r: nat)
    returns (a': Matrix<T>, inv': Matrix<T>)
    requires IsField(F) && IsSquare(a0, n) && col < n && r < n && ClearedTo(F, a0, a, inv, n, col, r)
    ensures ClearedTo(F, a0, a', inv', n, col, r + 1)
  {
    if r != col && a[r][col] != F.zero {
      a', inv' := EliminateRow(F, a, inv, n, r, col);
      ClearRow(F, a0, a, inv, n, col, r, a', inv');
    } else {
      SkipRow(F, a0, a, inv, n, col, r);
      a', inv' := a, inv;
    }
  }

  /** Clears column `col` from every row but `col`. */
  method EliminateColumn<T(==, !new)>(F: Field<T>, ghost a0: Matrix<T>, a: Matrix<T>, inv: Matrix<T>, n: nat, col: nat)
    returns (a': Matrix<T>, inv': Matrix<T>)
    requires IsField(F) && IsSquare(a0, n) && col < n && ClearedTo(F, a0, a, inv, n, col, 0)
    ensures Tracks(F, a0, a', inv', n) && Reduced(F, a', n, col + 1)
  {
    a', inv' := a, inv;
    for r := 0 to n
      invariant ClearedTo(F, a0, a', inv', n, col, r)
    {
      a', inv' := ClearOneRow(F, a0, a', inv', n, col, r);
    }
    AllCleared(F, a0, a', inv', n, col);
  }

  lemma PivotNormalised<T(!new)>(F: Field<T>, a0: Matrix<T>, a: Matrix<T>, inv: Matrix<T>, n: nat, col: nat,
                                 b: Matrix<T>, inv': Matrix<T>)
    requires IsField(F) && IsSquare(a0, n) && col < n && Tracks(F, a0, a, inv, n) && Reduced(F, a, n, col)
    requires a[col][col] != F.zero
    requires b == a[col := Scale(F, a[col], F.inv(a[col][col]))]
    requires inv' == inv[col := Scale(F, inv[col], F.inv(a[col][col]))]
    ensures ClearedTo(F, a0, b, inv', n, col, 0)
  {
    var p := a[col][col];
    InvNonZero(F, p);
    ScaleTracks(F, a0, a, inv, n, col, F.inv(p));
    ScaleReduced(F, a, n, col, F.inv(p));
    LawsAt(F, p, p, p);
  }

  lemma SwapReduced<T(!new)>(F: Field<T>, a: Matrix<T>, b: Matrix<T>, n: nat, col: nat, pivot: nat)
    requires IsSquare(a, n) && IsSquare(b, n) && col <= pivot < n && Reduced(F, a, n, col)
             && Swapped(a, b, n, col, pivot)
    ensures Reduced(F, b, n, col)
  {
  }

  lemma SwapsRows<T>(a: Matrix<T>, n: nat, p: nat, q: nat)
    requires |a| == n && p < n && q < n
    ensures Swapped(a, a[p := a[q]][q := a[p]], n, p, q)
  {
  }

  lemma PivotSwapped<T(!new)>(F: Field<T>, a0: Matrix<T>, a: Matrix<T>, inv: Matrix<T>, n: nat, col: nat, pivot: nat,
                              b: Matrix<T>, inv': Matrix<T>)
    requires IsSquare(a0, n) && Tracks(F, a0, a, inv, n) && col <= pivot < n && Reduced(F, a, n, col)
    requires b == a[col := a[pivot]][pivot := a[col]] && inv' == inv[col := inv[pivot]][pivot := inv[col]]
    ensures Tracks(F, a0, b, inv', n) && Reduced(F, b, n, col) && b[col] == a[pivot]
  {
    SwapsRows(a, n, col, pivot);
    SwapsRows(inv, n, col, pivot);
    SwapTracks(F, a0, a, inv, b, inv', n, col, pivot);
    SwapReduced(F, a, b, n, col, pivot);
  }

  /** Brings the pivot into place and normalises its row. */
  method PlacePivot<T(==, !new)>(F: Field<T>, ghost a0: Matrix<T>, a: Matrix<T>, inv: Matrix<T>, n: nat, col: nat,
                                 pivot: nat)
    returns (a': Matrix<T>, inv': Matrix<T>)
    requires IsField(F) && IsSquare(a0, n) && Tracks(F, a0, a, inv, n) && col <= pivot < n
    requires Reduced(F, a, n, col) && a[pivot][col] != F.zero
    ensures ClearedTo(F, a0, a', inv', n, col, 0)
  {
    var b, invB := a[col := a[pivot]][pivot := a[col]], inv[col := inv[pivot]][pivot := inv[col]];
    PivotSwapped(F, a0, a, inv, n, col, pivot, b, invB);
    a', inv' := NormaliseRow(F, b, invB, n, col, F.inv(b[col][col]));
    PivotNormalised(F, a0, b, invB, n, col, a', inv');
  }

  /** No pivot in a column, below the rows already reduced: the original matrix has a non-zero null vector. */
  lemma NoPivot<T(!new)>(F: Field<T>, a0: Matrix<T>, a: Matrix<T>, inv: Matrix<T>, n: nat, col: nat)
    requires IsField(F) && IsSquare(a0, n) && Tracks(F, a0, a, inv, n) && col < n && Reduced(F, a, n, col)
    requires forall r :: col <= r < n ==> a[r][col] == F.zero
    ensures Singular(F, a0, n)
  {
    var x := PivotlessVector(F, a, n, col);
    PivotlessIsNull(F, a, n, col);
    assert x[col] == F.one && Annihilates(F, a0, n, x);
    LawsAt(F, F.one, F.one, F.one);
  }

  /**
    Exact inversion: Some(inv) undoes a on every vector and a undoes inv (so both products are the
    identity, see InvertsIsLeftInverse), and None is returned for the singular matrices and only them.
   */
  method InvertMatrix<T(==, !new)>(F: Field<T>, a0: Matrix<T>) returns (result: Option<Matrix<T>>)
    requires IsField(F)
    requires IsSquare(a0, |a0|)
    ensures result.Some? ==> IsSquare(result.value, |a0|)
    ensures result.Some? ==> Inverts(F, result.value, a0, |a0|) && Inverts(F, a0, result.value, |a0|)
    ensures result.None? <==> Singular(F, a0, |a0|)
  {
    var n := |a0|;
    var a, inv := a0, Identity(F, n);
    TracksInitially(F, a0, n);
    for col := 0 to n
      invariant Tracks(F, a0, a, inv, n)
      invariant Reduced(F, a, n, col)
    {
      var pivot := FindPivot(F, a, n, col);
      if pivot == n {
        NoPivot(F, a0, a, inv, n, col);
        return None;
      }
      a, inv := PlacePivot(F, a0, a, inv, n, col, pivot);
      a, inv := EliminateColumn(F, a0, a, inv, n, col);
    }
    ReducedInverts(F, a0, a, inv, n);
    InvertsBack(F, inv, a0, n);
    InvertsNotSingular(F, inv, a0, n);
    return Some(inv);
  }
}
