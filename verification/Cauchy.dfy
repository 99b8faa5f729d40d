/**
  Cauchy matrices over a field of characteristic two (core-supervisor/src/fec_engine.rs,
  `cauchy_parity_matrix`): a vector with no more non-zero entries than there are rows is
  annihilated by all the rows only if it is zero. Every square submatrix being invertible is
  the special case of a support confined to as many columns as there are rows.
 */
module Cauchy {
  import opened Field
  import opened LinearAlgebra
  import GaussJordan

  ghost predicate Distinct<T>(s: seq<T>) {
    forall i, j :: 0 <= i < j < |s| ==> s[i] != s[j]
  }

  function CauchyRow<T>(F: Field<T>, x: T, ys: seq<T>): (row: Vector<T>) {
    seq(|ys|, i requires 0 <= i < |ys| => F.inv(F.add(x, ys[i])))
  }

  ghost function Support<T>(F: Field<T>, v: Vector<T>): (s: set<nat>) {
    set i: nat | i < |v| && v[i] != F.zero
  }

  /** v with entry i multiplied by ys[i] + y. */
  ghost function Shifted<T>(F: Field<T>, ys: seq<T>, y: T, v: Vector<T>): (w: Vector<T>)
    requires |ys| == |v|
  {
    seq(|v|, i requires 0 <= i < |v| => F.mul(v[i], F.add(ys[i], y)))
  }

  /** v with entry i divided by z + ys[i]. */
  ghost function Divided<T>(F: Field<T>, ys: seq<T>, z: T, v: Vector<T>): (u: Vector<T>)
    requires |ys| == |v|
  {
    seq(|v|, i requires 0 <= i < |v| => F.mul(v[i], F.inv(F.add(z, ys[i]))))
  }

  /** r v (y + d) + v == (x + d) r v when r is the inverse of x + y. */
  lemma ShiftTerm<T(!new)>(F: Field<T>, x: T, y: T, d: T, v: T)
    requires IsField(F) && x != y
    ensures var r := F.inv(F.add(x, y));
            F.mul(F.mul(r, F.add(x, d)), v) == F.add(F.mul(r, F.mul(v, F.add(y, d))), F.mul(F.one, v))
  {
    var s := F.add(x, y);
    var r, t := F.inv(s), F.add(y, d);
    AddZero(F, x, y);
    // x + d == s + t
    AddExchange(F, x, y, y, d);
    LawsAt(F, x, y, d);
    LawsAt(F, F.add(x, y), y, d);
    LawsAt(F, x, y, y);
    LawsAt(F, y, y, y);
    LawsAt(F, x, F.zero, F.zero);
    assert F.add(s, t) == F.add(x, d);
    LawsAt(F, r, s, t);
    LawsAt(F, s, r, r);
    assert F.mul(r, F.add(x, d)) == F.add(F.one, F.mul(r, t));
    LawsAt(F, v, F.one, F.mul(r, t));
    LawsAt(F, F.add(F.one, F.mul(r, t)), v, v);
    LawsAt(F, r, v, t);
    LawsAt(F, r, t, v);
    LawsAt(F, t, v, v);
    LawsAt(F, v, F.mul(r, t), v);
    LawsAt(F, F.one, v, v);
    LawsAt(F, F.mul(F.one, v), F.mul(r, F.mul(v, t)), v);
  }

  /** Multiplying row x by x + d turns a vanishing sum into one independent of x. */
  lemma ShiftRow<T(!new)>(F: Field<T>, x: T, ys: seq<T>, d: T, v: Vector<T>)
    requires IsField(F) && |v| == |ys| && x !in ys
    requires Dot(F, CauchyRow(F, x, ys), v, |v|) == F.zero
    ensures Dot(F, CauchyRow(F, x, ys), Shifted(F, ys, d, v), |v|) == Dot(F, seq(|v|, _ => F.one), v, |v|)
  {
    var n, row, w, ones := |v|, CauchyRow(F, x, ys), Shifted(F, ys, d, v), seq(|v|, _ => F.one);
    var scaled := GaussJordan.Scale(F, row, F.add(x, d));
    forall i | 0 <= i < n ensures F.mul(scaled[i], v[i]) == F.add(F.mul(row[i], w[i]), F.mul(ones[i], v[i])) {
      ShiftTerm(F, x, ys[i], d, v[i]);
    }
    DotOfSums(F, scaled, v, row, w, ones, v, n);
    GaussJordan.DotScale(F, row, F.add(x, d), v, n);
    MulZero(F, F.add(x, d));
    AddZero(F, Dot(F, row, w, n), Dot(F, ones, v, n));
  }

  /** (x + z) / ((x + y)(z + y)) * w == w / (x + y) + w / (z + y) */
  lemma DifferenceTerm<T(!new)>(F: Field<T>, x: T, z: T, y: T, w: T)
    requires IsField(F) && x != y && z != y
    ensures var p, q := F.inv(F.add(x, y)), F.inv(F.add(z, y));
            F.mul(F.mul(p, F.add(x, z)), F.mul(w, q)) == F.add(F.mul(p, w), F.mul(q, w))
  {
    var a, b := F.add(x, y), F.add(z, y);
    var p, q := F.inv(a), F.inv(b);
    var d := F.add(x, z);
    AddZero(F, x, y);
    AddZero(F, z, y);
    // a + b == x + z
    AddExchange(F, x, y, z, y);
    LawsAt(F, y, y, y);
    LawsAt(F, d, F.zero, F.zero);
    AddInverses(F, a, b);
    assert F.add(p, q) == F.mul(d, F.mul(p, q));
    LawsAt(F, w, p, q);
    LawsAt(F, p, w, w);
    LawsAt(F, q, w, w);
    // regroup the product
    LawsAt(F, p, d, d);
    LawsAt(F, d, p, F.mul(w, q));
    LawsAt(F, w, q, p);
    LawsAt(F, p, q, w);
    LawsAt(F, q, w, w);
    LawsAt(F, d, F.mul(p, q), w);
    LawsAt(F, F.mul(d, F.mul(p, q)), w, w);
  }

  lemma DifferenceRow<T(!new)>(F: Field<T>, x: T, z: T, ys: seq<T>, w: Vector<T>)
    requires IsField(F) && |w| == |ys| && x !in ys && z !in ys && x != z
    requires Dot(F, CauchyRow(F, x, ys), w, |w|) == Dot(F, CauchyRow(F, z, ys), w, |w|)
    ensures Dot(F, CauchyRow(F, x, ys), Divided(F, ys, z, w), |w|) == F.zero
  {
    var n, rowX, rowZ, u := |w|, CauchyRow(F, x, ys), CauchyRow(F, z, ys), Divided(F, ys, z, w);
    var scaled := GaussJordan.Scale(F, rowX, F.add(x, z));
    forall i | 0 <= i < n ensures F.mul(scaled[i], u[i]) == F.add(F.mul(rowX[i], w[i]), F.mul(rowZ[i], w[i])) {
      DifferenceTerm(F, x, z, ys[i], w[i]);
    }
    DotOfSums(F, scaled, u, rowX, w, rowZ, w, n);
    GaussJordan.DotScale(F, rowX, F.add(x, z), u, n);
    LawsAt(F, Dot(F, rowX, w, n), F.zero, F.zero);
    AddZero(F, x, z);
    ZeroProduct(F, F.add(x, z), Dot(F, rowX, u, n));
  }

  /** Shifting by ys[c] and dividing by z + ys[i] removes exactly c from the support. */
  lemma StepSupport<T(!new)>(F: Field<T>, ys: seq<T>, c: nat, z: T, v: Vector<T>)
    requires IsField(F) && Distinct(ys) && z !in ys && |v| == |ys| && c < |ys|
    ensures Support(F, Divided(F, ys, z, Shifted(F, ys, ys[c], v))) == Support(F, v) - {c}
  {
    var w := Shifted(F, ys, ys[c], v);
    var u := Divided(F, ys, z, w);
    forall i | 0 <= i < |v| ensures u[i] == F.zero <==> (i == c || v[i] == F.zero) {
      AddZero(F, ys[i], ys[c]);
      AddZero(F, z, ys[i]);
      InvNonZero(F, F.add(z, ys[i]));
      MulZero(F, v[i]);
      MulZero(F, F.add(ys[i], ys[c]));
      MulZero(F, F.inv(F.add(z, ys[i])));
      if w[i] == F.zero && v[i] != F.zero {
        ZeroProduct(F, v[i], F.add(ys[i], ys[c]));
      }
      if u[i] == F.zero && w[i] != F.zero {
        ZeroProduct(F, w[i], F.inv(F.add(z, ys[i])));
      }
    }
  }

  /** A vector supported on one column is not annihilated by a Cauchy row. */
  lemma SingleColumn<T(!new)>(F: Field<T>, x: T, ys: seq<T>, c: nat, v: Vector<T>)
    requires IsField(F) && |v| == |ys| && x !in ys && c < |ys|
    requires Support(F, v) <= {c}
    requires Dot(F, CauchyRow(F, x, ys), v, |v|) == F.zero
    ensures v[c] == F.zero
  {
    var row := CauchyRow(F, x, ys);
    forall i | 0 <= i < |v| && i != c ensures F.mul(row[i], v[i]) == F.zero {
      assert i !in Support(F, v);
      MulZero(F, row[i]);
    }
    DotOfSingleton(F, row, v, c, |v|);
    AddZero(F, x, ys[c]);
    InvNonZero(F, F.add(x, ys[c]));
    ZeroProduct(F, row[c], v[c]);
  }

  lemma {:induction false} CauchyNonsingular<T(!new)>(F: Field<T>, xs: seq<T>, ys: seq<T>, v: Vector<T>)
    requires IsField(F)
    requires Distinct(xs) && Distinct(ys) && forall x :: x in xs ==> x !in ys
    requires |v| == |ys| && |Support(F, v)| <= |xs|
    requires forall x :: x in xs ==> Dot(F, CauchyRow(F, x, ys), v, |v|) == F.zero
    ensures IsZero(F, v)
    decreases |xs|
  {
    if c :| c in Support(F, v) {
      var n := |xs| - 1;
      var z, rest := xs[n], xs[..n];
      var w := Shifted(F, ys, ys[c], v);
      var u := Divided(F, ys, z, w);
      StepSupport(F, ys, c, z, v);
      ShiftRow(F, z, ys, ys[c], v);
      forall x | x in rest ensures Dot(F, CauchyRow(F, x, ys), u, |u|) == F.zero {
        ShiftRow(F, x, ys, ys[c], v);
        DifferenceRow(F, x, z, ys, w);
      }
      CauchyNonsingular(F, rest, ys, u);
      assert Support(F, u) == {};
      SingleColumn(F, z, ys, c, v);
      assert false;
    }
    forall i | 0 <= i < |v| ensures v[i] == F.zero {
      assert i !in Support(F, v);
    }
  }
}
