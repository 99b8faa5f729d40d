/**
  Fields of characteristic two, as a record of operations together with their laws.

  The erasure code only ever adds, multiplies and inverts field elements, so its linear
  algebra is proved once over an arbitrary record `F` that satisfies `IsField`; Gf256
  then shows that the table-driven byte arithmetic is one. Inside the linear algebra the
  operations are unknown functions, which keeps every proof free of byte-level detail.
 */
module Field {

  datatype Field<!T> = Field(
    zero: T,
    one: T,
    add: (T, T) -> T,
    mul: (T, T) -> T,
    inv: T -> T)

  /** Names the three elements a law is wanted for; the laws below fire on nothing else. */
  ghost predicate At<T>(a: T, b: T, c: T) {
    true
  }

  /** The laws, at three given elements. */
  ghost predicate Laws<T>(F: Field<T>, a: T, b: T, c: T) {
    && F.add(a, b) == F.add(b, a)
    && F.add(a, F.add(b, c)) == F.add(F.add(a, b), c)
    && F.add(a, F.zero) == a
    && F.add(a, a) == F.zero
    && F.mul(a, b) == F.mul(b, a)
    && F.mul(a, F.mul(b, c)) == F.mul(F.mul(a, b), c)
    && F.mul(a, F.one) == a
    && F.mul(a, F.add(b, c)) == F.add(F.mul(a, b), F.mul(a, c))
    && (a != F.zero ==> F.mul(a, F.inv(a)) == F.one)
  }

  ghost predicate IsField<T(!new)>(F: Field<T>) {
    && F.zero != F.one
    && forall a, b, c {:trigger At(a, b, c)} :: At(a, b, c) ==> Laws(F, a, b, c)
  }

  lemma LawsAt<T(!new)>(F: Field<T>, a: T, b: T, c: T)
    requires IsField(F)
    ensures Laws(F, a, b, c)
  {
    assert At(a, b, c);
  }

  /** (a + b) + (c + d) == (a + c) + (b + d) */
  lemma AddExchange<T(!new)>(F: Field<T>, a: T, b: T, c: T, d: T)
    requires IsField(F)
    ensures F.add(F.add(a, b), F.add(c, d)) == F.add(F.add(a, c), F.add(b, d))
  {
    LawsAt(F, F.add(a, b), c, d);
    LawsAt(F, a, b, c);
    LawsAt(F, a, c, b);
    LawsAt(F, b, c, d);
    LawsAt(F, F.add(a, c), b, d);
  }

  lemma MulZero<T(!new)>(F: Field<T>, a: T)
    requires IsField(F)
    ensures F.mul(a, F.zero) == F.zero && F.mul(F.zero, a) == F.zero
  {
    var p := F.mul(a, F.zero);
    LawsAt(F, a, F.zero, F.zero);
    LawsAt(F, F.zero, F.zero, a);
    assert F.add(p, p) == p;
    LawsAt(F, p, p, p);
  }

  lemma ZeroProduct<T(!new)>(F: Field<T>, a: T, b: T)
    requires IsField(F)
    requires F.mul(a, b) == F.zero && a != F.zero
    ensures b == F.zero
  {
    LawsAt(F, F.inv(a), a, b);
    LawsAt(F, a, F.inv(a), b);
    LawsAt(F, b, F.one, b);
    MulZero(F, F.inv(a));
  }

  /** In characteristic two, a sum vanishes exactly when its terms agree. */
  lemma AddZero<T(!new)>(F: Field<T>, a: T, b: T)
    requires IsField(F)
    ensures F.add(a, b) == F.zero <==> a == b
  {
    LawsAt(F, a, a, b);
    LawsAt(F, b, a, b);
    if F.add(a, b) == F.zero {
      assert F.add(F.add(a, a), b) == F.add(a, F.zero);
      assert F.add(b, F.zero) == F.add(F.zero, b) by { LawsAt(F, b, F.zero, b); }
    }
  }

  lemma InvNonZero<T(!new)>(F: Field<T>, a: T)
    requires IsField(F)
    requires a != F.zero
    ensures F.inv(a) != F.zero
  {
    LawsAt(F, a, a, a);
    MulZero(F, a);
  }

  /** 1/a + 1/b == (a + b) * (1/a * 1/b) */
  lemma AddInverses<T(!new)>(F: Field<T>, a: T, b: T)
    requires IsField(F)
    requires a != F.zero && b != F.zero
    ensures F.add(F.inv(a), F.inv(b)) == F.mul(F.add(a, b), F.mul(F.inv(a), F.inv(b)))
  {
    var ia, ib := F.inv(a), F.inv(b);
    var q := F.mul(ia, ib);
    assert F.mul(a, q) == ib by {
      LawsAt(F, a, ia, ib);
      LawsAt(F, F.one, ib, ib);
      LawsAt(F, ib, F.one, ib);
    }
    assert F.mul(b, q) == ia by {
      LawsAt(F, ia, ib, b);
      LawsAt(F, b, ib, ia);
      LawsAt(F, F.one, ia, ia);
      LawsAt(F, ia, F.one, ia);
    }
    LawsAt(F, q, a, b);
    LawsAt(F, F.add(a, b), q, q);
    LawsAt(F, a, q, q);
    LawsAt(F, b, q, q);
    LawsAt(F, ia, ib, ib);
  }
}
