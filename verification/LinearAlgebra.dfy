/**
  Inner products over a field of characteristic two, and matrices as sequences of rows.

  A matrix is only ever studied through what it does to every vector: `Apply(F, rows, x)` is
  the vector of inner products of its rows with `x`.
 */
module LinearAlgebra {
  import opened Field

  type Vector<T> = seq<T>
  type Matrix<T> = seq<seq<T>>

  /** Sum of u[i] * v[i] for i < n. */
  function Dot<T>(F: Field<T>, u: Vector<T>, v: Vector<T>, n: nat): T
    requires n <= |u| && n <= |v|
  {
    if n == 0 then F.zero else F.add(Dot(F, u, v, n - 1), F.mul(u[n - 1], v[n - 1]))
  }

  predicate IsSquare<T>(a: Matrix<T>, n: nat) {
    |a| == n && forall r :: 0 <= r < n ==> |a[r]| == n
  }

  function Unit<T>(F: Field<T>, n: nat, i: nat): (u: Vector<T>)
  {
    seq(n, j requires 0 <= j < n => if j == i then F.one else F.zero)
  }

  function Identity<T>(F: Field<T>, n: nat): (a: Matrix<T>)
  {
    seq(n, i requires 0 <= i < n => Unit(F, n, i))
  }

  function Apply<T>(F: Field<T>, a: Matrix<T>, x: Vector<T>): (y: Vector<T>)
    requires forall r :: 0 <= r < |a| ==> |a[r]| == |x|
  {
    seq(|a|, r requires 0 <= r < |a| => Dot(F, a[r], x, |x|))
  }

  ghost predicate IsZero<T>(F: Field<T>, x: Vector<T>) {
    forall i :: 0 <= i < |x| ==> x[i] == F.zero
  }

  /** Column c of a. */
  function Column<T>(a: Matrix<T>, c: nat): (v: Vector<T>)
    requires forall r :: 0 <= r < |a| ==> c < |a[r]|
  {
    seq(|a|, r requires 0 <= r < |a| => a[r][c])
  }

  function Product<T>(F: Field<T>, a: Matrix<T>, b: Matrix<T>, n: nat): (p: Matrix<T>)
    requires IsSquare(a, n) && IsSquare(b, n)
  {
    seq(n, r requires 0 <= r < n => seq(n, c requires 0 <= c < n => Dot(F, a[r], Column(b, c), n)))
  }

  /** Termwise sums: if every term of (u, v) is the sum of the terms of (p, q) and (s, t), so is the total. */
  lemma {:induction false} DotOfSums<T(!new)>(F: Field<T>, u: Vector<T>, v: Vector<T>, p: Vector<T>, q: Vector<T>,
                                              s: Vector<T>, t: Vector<T>, n: nat)
    requires IsField(F)
    requires n <= |u| && n <= |v| && n <= |p| && n <= |q| && n <= |s| && n <= |t|
    requires forall i :: 0 <= i < n ==> F.mul(u[i], v[i]) == F.add(F.mul(p[i], q[i]), F.mul(s[i], t[i]))
    ensures Dot(F, u, v, n) == F.add(Dot(F, p, q, n), Dot(F, s, t, n))
  {
    if n == 0 {
      LawsAt(F, F.zero, F.zero, F.zero);
    } else {
      DotOfSums(F, u, v, p, q, s, t, n - 1);
      AddExchange(F, Dot(F, p, q, n - 1), Dot(F, s, t, n - 1), F.mul(p[n - 1], q[n - 1]), F.mul(s[n - 1], t[n - 1]));
    }
  }

  /** Termwise multiples: if every term of (u, v) is k times the term of (p, q), so is the total. */
  lemma {:induction false} DotOfMultiples<T(!new)>(F: Field<T>, u: Vector<T>, v: Vector<T>, k: T,
                                                   p: Vector<T>, q: Vector<T>, n: nat)
    requires IsField(F)
    requires n <= |u| && n <= |v| && n <= |p| && n <= |q|
    requires forall i :: 0 <= i < n ==> F.mul(u[i], v[i]) == F.mul(k, F.mul(p[i], q[i]))
    ensures Dot(F, u, v, n) == F.mul(k, Dot(F, p, q, n))
  {
    if n == 0 {
      MulZero(F, k);
    } else {
      DotOfMultiples(F, u, v, k, p, q, n - 1);
      LawsAt(F, k, Dot(F, p, q, n - 1), F.mul(p[n - 1], q[n - 1]));
    }
  }

  /** If at most the term at c is non-zero, the total is that term. */
  lemma {:induction false} DotOfSingleton<T(!new)>(F: Field<T>, u: Vector<T>, v: Vector<T>, c: nat, n: nat)
    requires IsField(F)
    requires n <= |u| && n <= |v| && c < |u| && c < |v|
    requires forall i :: 0 <= i < n && i != c ==> F.mul(u[i], v[i]) == F.zero
    ensures Dot(F, u, v, n) == if c < n then F.mul(u[c], v[c]) else F.zero
  {
    if n > 0 {
      DotOfSingleton(F, u, v, c, n - 1);
      var t := F.mul(u[n - 1], v[n - 1]);
      LawsAt(F, Dot(F, u, v, n - 1), t, t);
      LawsAt(F, t, F.zero, t);
      LawsAt(F, F.zero, t, t);
    }
  }

  /** Equal entries give equal totals. */
  lemma {:induction false} DotOfEqual<T(!new)>(F: Field<T>, u: Vector<T>, v: Vector<T>, p: Vector<T>, q: Vector<T>,
                                               n: nat)
    requires n <= |u| && n <= |v| && n <= |p| && n <= |q|
    requires forall i :: 0 <= i < n ==> F.mul(u[i], v[i]) == F.mul(p[i], q[i])
    ensures Dot(F, u, v, n) == Dot(F, p, q, n)
  {
    if n > 0 {
      DotOfEqual(F, u, v, p, q, n - 1);
    }
  }

  lemma DotUnit<T(!new)>(F: Field<T>, n: nat, c: nat, x: Vector<T>)
    requires IsField(F)
    requires c < n == |x|
    ensures Dot(F, Unit(F, n, c), x, n) == x[c]
    ensures Dot(F, x, Unit(F, n, c), n) == x[c]
  {
    var e := Unit(F, n, c);
    forall i | 0 <= i < n && i != c
      ensures F.mul(e[i], x[i]) == F.zero && F.mul(x[i], e[i]) == F.zero
    {
      MulZero(F, x[i]);
    }
    DotOfSingleton(F, e, x, c, n);
    DotOfSingleton(F, x, e, c, n);
    LawsAt(F, x[c], F.one, x[c]);
    assert e[c] == F.one;
  }

  lemma DotZero<T(!new)>(F: Field<T>, u: Vector<T>, v: Vector<T>, n: nat)
    requires IsField(F)
    requires n <= |u| && n <= |v|
    requires forall i :: 0 <= i < n ==> v[i] == F.zero
    ensures Dot(F, u, v, n) == F.zero
  {
    if n > 0 {
      forall i | 0 <= i < n ensures F.mul(u[i], v[i]) == F.zero {
        MulZero(F, u[i]);
      }
      DotOfSingleton(F, u, v, 0, n);
    }
  }
}
