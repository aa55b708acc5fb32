/** The overflow guards: portable tests, made before an operation, of whether its
    mathematical result fits an integer type. */
module Bounds {

  /** C division truncates toward zero. */
  function Quot(a: int, b: int): int
    requires b != 0
  {
    if a >= 0 then (if b > 0 then a / b else -(a / -b))
    else (if b > 0 then -(-a / b) else -a / -b)
  }

  /** C remainder: what truncating division leaves, with the sign of a. */
  function Rem(a: int, b: int): (r: int)
    requires b != 0
    ensures a == Quot(a, b) * b + r
    ensures (if r < 0 then -r else r) < (if b < 0 then -b else b)
    ensures r != 0 ==> (r < 0 <==> a < 0)
  {
    a - Quot(a, b) * b
  }

  /** The values of an integer type. */
  datatype Range = Range(min: int, max: int) {
    predicate Unsigned() { min == 0 <= max }

    /** Two's complement. */
    predicate Signed() { max >= 0 && min == -max - 1 }

    predicate Has(x: int) { min <= x <= max }
  }

  function UaddOk(a: int, b: int, t: Range): bool {
    a <= t.max - b
  }

  function UsubOk(a: int, b: int): bool {
    a >= b
  }

  function UmulOk(a: int, b: int, t: Range): bool {
    a == 0 || b <= Quot(t.max, a)
  }

  function SaddOk(a: int, b: int, t: Range): bool {
    (b > 0 && a <= t.max - b) || (b <= 0 && a >= t.min - b)
  }

  function SsubOk(a: int, b: int, t: Range): bool {
    (b < 0 && a <= t.max + b) || (b >= 0 && a >= t.min + b)
  }

  function SmulOk(a: int, b: int, t: Range): bool {
    a == 0 || b == 0
    || (a > 0 && b > 0 && a <= Quot(t.max, b))
    || (a < 0 && b < 0 && a >= Quot(t.max, b))
    || (a > 0 && b < 0 && b >= Quot(t.min, a))
    || (a < 0 && b > 0 && a >= Quot(t.min, b))
  }

  function SdivOk(a: int, b: int, t: Range): bool {
    b != 0 && !(a == t.min && b == -1)
  }

  /** The unsigned guards hold exactly when the result fits, and are computed within the type. */
  lemma UnsignedGuards(a: int, b: int, t: Range)
    requires t.Unsigned() && t.Has(a) && t.Has(b)
    ensures UaddOk(a, b, t) <==> t.Has(a + b)
    ensures UsubOk(a, b) <==> t.Has(a - b)
    ensures UmulOk(a, b, t) <==> t.Has(a * b)
    ensures t.Has(t.max - b) && (a != 0 ==> t.Has(Quot(t.max, a)))
  {
    if a != 0 {
      FloorBound(t.max, a, b);
      assert a * b >= 0;
    }
  }

  function Times(a: int, b: int): int { a * b }

  lemma Scale(a: int, x: int, y: int)
    requires x <= y && a > 0
    ensures Times(a, x) <= Times(a, y)
  {
  }

  lemma QuotientBounds(n: nat, a: int)
    requires a > 0
    ensures Times(a, n / a) <= n < Times(a, n / a + 1)
  {
  }

  lemma BoundedBy(n: nat, a: int, b: int, q: int)
    requires a > 0 && Times(a, q) <= n < Times(a, q + 1)
    ensures b <= q <==> Times(a, b) <= n
  {
    hide Times;
    if b <= q {
      Scale(a, b, q);
    } else {
      Scale(a, q + 1, b);
    }
  }

  /** b copies of a fit below n exactly when b is at most the quotient. */
  lemma FloorBound(n: nat, a: int, b: int)
    requires a > 0
    ensures b <= n / a <==> Times(a, b) <= n
    ensures 0 <= n / a <= n
  {
    hide Times;
    QuotientBounds(n, a);
    BoundedBy(n, a, b, n / a);
    BetweenZeroAnd(n, a, n / a);
  }

  lemma BetweenZeroAnd(n: nat, a: int, q: int)
    requires a > 0 && Times(a, q) <= n < Times(a, q + 1)
    ensures 0 <= q <= n
  {
    hide Times;
    BoundedBy(n, a, 0, q);
    TimesGrows(a, 0);
    TimesGrows(a, q);
  }

  lemma TimesGrows(a: int, q: int)
    requires a > 0
    ensures Times(a, 0) == 0 && (q >= 0 ==> Times(a, q) >= q)
  {
    if q >= 0 {
      Above(a, q);
    }
  }

  lemma {:induction false} Above(a: int, q: int)
    requires a > 0 && q >= 0
    ensures Times(a, q) >= q
  {
    if a > 1 {
      Above(a - 1, q);
      assert Times(a, q) == Times(a - 1, q) + q;
    }
  }

  /** The signed sum and difference guards are exact and computed within the type. */
  lemma SumGuards(a: int, b: int, t: Range)
    requires t.Signed() && t.Has(a) && t.Has(b)
    ensures SaddOk(a, b, t) <==> t.Has(a + b)
    ensures SsubOk(a, b, t) <==> t.Has(a - b)
    ensures b > 0 ==> t.Has(t.max - b)
    ensures b <= 0 ==> t.Has(t.min - b)
    ensures b < 0 ==> t.Has(t.max + b)
    ensures b >= 0 ==> t.Has(t.min + b)
  {
  }

  /** The signed product guard is exact: no case is missed by truncation. */
  lemma ProductGuard(a: int, b: int, t: Range)
    requires t.Signed() && t.Has(a) && t.Has(b)
    ensures SmulOk(a, b, t) <==> t.Has(a * b)
  {
    hide Times;
    TimesSigns(a, b);
    if a > 0 && b > 0 {
      FloorBound(t.max, b, a);
    } else if a < 0 && b < 0 {
      FloorBound(t.max, -b, -a);
    } else if a > 0 && b < 0 {
      FloorBound(-t.min, a, -b);
    } else if a < 0 && b > 0 {
      FloorBound(-t.min, b, -a);
    }
  }

  lemma TimesSigns(a: int, b: int)
    ensures Times(b, a) == a * b == Times(-b, -a) && Times(a, -b) == -(a * b) == Times(b, -a)
    ensures (a > 0 && b > 0) || (a < 0 && b < 0) ==> a * b > 0
    ensures (a > 0 && b < 0) || (a < 0 && b > 0) ==> a * b < 0
    ensures a == 0 || b == 0 ==> a * b == 0
  {
    if a > 0 && b > 0 {
      Positive(a, b);
    } else if a < 0 && b < 0 {
      Positive(-a, -b);
    } else if a > 0 && b < 0 {
      Positive(a, -b);
    } else if a < 0 && b > 0 {
      Positive(-a, b);
    }
  }

  lemma Positive(a: int, b: int)
    requires a > 0 && b > 0
    ensures a * b > 0
  {
  }

  /** Each quotient the product guard computes lies within the type, as it divides the
      most negative value only by a positive one. */
  lemma ProductGuardFits(a: int, b: int, t: Range)
    requires t.Signed() && t.Has(a) && t.Has(b)
    ensures a > 0 && b > 0 ==> t.Has(Quot(t.max, b))
    ensures a < 0 && b < 0 ==> t.Has(Quot(t.max, b))
    ensures a > 0 && b < 0 ==> t.Has(Quot(t.min, a))
    ensures a < 0 && b > 0 ==> t.Has(Quot(t.min, b))
  {
    if b != 0 {
      FloorBound(t.max, if b > 0 then b else -b, 0);
    }
    if b > 0 {
      FloorBound(-t.min, b, 0);
    }
    if a > 0 {
      FloorBound(-t.min, a, 0);
    }
  }

  /** The division guard excludes exactly the one quotient that does not fit. */
  lemma DivisionGuard(a: int, b: int, t: Range)
    requires t.Signed() && t.Has(a) && t.Has(b)
    ensures SdivOk(a, b, t) <==> b != 0 && t.Has(Quot(a, b))
  {
    if b != 0 {
      var n, d := if a < 0 then -a else a, if b < 0 then -b else b;
      FloorBound(n, d, 0);
      if d > 1 && n > 0 {
        FloorBound(n, d, n);
        Scale(n, 2, d);
        assert Times(n, d) == Times(d, n);
      }
    }
  }

  /** The guarded product: dest is only stored to when the guard holds. */
  method SafeMul(dest: int, a: int, b: int, t: Range) returns (ok: bool, dest': int)
    requires t.Signed() && t.Has(a) && t.Has(b)
    ensures ok <==> t.Has(a * b)
    ensures dest' == if ok then a * b else dest
  {
    ProductGuard(a, b, t);
    ok := SmulOk(a, b, t);
    dest' := if ok then a * b else dest;
  }

  /** The guarded difference. */
  method SafeSub(dest: int, a: int, b: int, t: Range) returns (ok: bool, dest': int)
    requires t.Signed() && t.Has(a) && t.Has(b)
    ensures ok <==> t.Has(a - b)
    ensures dest' == if ok then a - b else dest
  {
    SumGuards(a, b, t);
    ok := SsubOk(a, b, t);
    dest' := if ok then a - b else dest;
  }

  /** Python's remainder from C's: it takes the sign of the divisor. */
  method PyMod(num: int, denom: int, t: Range) returns (r: int)
    requires t.Signed() && t.Has(num) && t.Has(denom) && SdivOk(num, denom, t)
    ensures t.Has(r) && exists q :: num == q * denom + r
    ensures if denom > 0 then 0 <= r < denom else denom < r <= 0
  {
    r := Rem(num, denom);
    ghost var q := Quot(num, denom);
    assert num == q * denom + r;
    if r != 0 && (r < 0) != (denom < 0) {
      r := r + denom;
      assert num == (q - 1) * denom + r;
    }
  }
}
