/**
 Non-negative binary floating point: rounding to the nearest representable number, ties to even
 (section 4.3.1 of IEEE 754-2008), for formats with 53 significant bits.
 */
module Floats {

  type Amount = x: real | 0.0 <= x

  datatype Float = Finite(value: Amount) | Infinite

  /** How often the spacing 1 of whole numbers is halved below 2^52, and how often it is doubled from 2^53 on. */
  datatype Format = Format(halvings: nat, doublings: nat)

  const BINARY64 := Format(1074, 971)

  const TWO_52: real := 4503599627370496.0
  const TWO_53: real := 9007199254740992.0
  const TWO_64: real := 18446744073709551616.0

  // ---- rounding ------------------------------------------------------------

  /** The nearest whole number, the even one of two. */
  function HalfEven(x: real): (n: int)
    ensures x - 0.5 <= n as real <= x + 0.5
  {
    var n := x.Floor;
    if x - n as real < 0.5 || (x - n as real == 0.5 && n % 2 == 0) then n else n + 1
  }

  function Fine(x: Amount, halvings: nat): Amount
    decreases halvings
  {
    if halvings == 0 || x >= TWO_52 then HalfEven(x) as real else Fine(2.0 * x, halvings - 1) / 2.0
  }

  function Coarse(x: Amount, doublings: nat): Float
    decreases doublings
  {
    if doublings == 0 then
      if HalfEven(x) as real < TWO_53 then Finite(HalfEven(x) as real) else Infinite
    else if x < TWO_53 then Finite(HalfEven(x) as real)
    else
      match Coarse(x / 2.0, doublings - 1)
      case Infinite => Infinite
      case Finite(y) => Finite(2.0 * y)
  }

  function Round(f: Format, x: Amount): Float {
    if x < TWO_53 then Finite(Fine(x, f.halvings)) else Coarse(x, f.doublings)
  }

  // ---- the representable numbers -------------------------------------------

  predicate Whole(x: real) {
    x.Floor as real == x
  }

  predicate OnFine(y: Amount, halvings: nat)
    decreases halvings
  {
    if halvings == 0 || y >= TWO_52 then Whole(y) else OnFine(2.0 * y, halvings - 1)
  }

  predicate OnCoarse(y: Amount, doublings: nat)
    decreases doublings
  {
    if y < TWO_53 then Whole(y) else doublings > 0 && OnCoarse(y / 2.0, doublings - 1)
  }

  predicate IsFloat(f: Format, y: Amount) {
    if y < TWO_53 then OnFine(y, f.halvings) else OnCoarse(y, f.doublings)
  }

  function Distance(x: real, y: real): real {
    if x <= y then y - x else x - y
  }

  // ---- rounding is to nearest ----------------------------------------------

  lemma HalfEvenNearest(x: real, m: int)
    ensures Distance(HalfEven(x) as real, x) <= Distance(m as real, x)
  {
    var n := x.Floor;
    assert m <= n ==> m as real <= n as real;
    assert m > n ==> m as real >= (n + 1) as real;
  }

  lemma WholeNearest(x: real, y: real)
    requires Whole(y)
    ensures Distance(HalfEven(x) as real, x) <= Distance(y, x)
  {
    HalfEvenNearest(x, y.Floor);
  }

  lemma DoubleWhole(y: real)
    requires Whole(y)
    ensures Whole(2.0 * y)
  {
    assert 2.0 * y == (2 * y.Floor) as real;
  }

  lemma HalfDistance(a: real, x: real, y: real)
    requires Distance(a, 2.0 * x) <= Distance(2.0 * y, 2.0 * x)
    ensures Distance(a / 2.0, x) <= Distance(y, x)
  {
  }

  /** A number less than half away is the nearest one; at half, the even one is. */
  lemma HalfEvenIs(x: real, n: int)
    ensures HalfEven(x) == n <==>
            Distance(x, n as real) < 0.5 || (Distance(x, n as real) == 0.5 && n % 2 == 0)
  {
  }

  lemma {:induction false} WholeIsFine(y: Amount, k: nat)
    requires Whole(y)
    ensures OnFine(y, k)
    decreases k
  {
    if k > 0 && y < TWO_52 {
      DoubleWhole(y);
      WholeIsFine(2.0 * y, k - 1);
    }
  }

  lemma {:induction false} CoarseIsWhole(y: Amount, k: nat)
    requires OnCoarse(y, k)
    ensures Whole(y)
    decreases k
  {
    if y >= TWO_53 {
      CoarseIsWhole(y / 2.0, k - 1);
      DoubleWhole(y / 2.0);
    }
  }

  lemma {:induction false} FineNearest(x: Amount, y: Amount, k: nat)
    requires OnFine(y, k)
    ensures Distance(Fine(x, k), x) <= Distance(y, x)
    decreases k
  {
    if k == 0 || x >= TWO_52 {
      WholeNearest(x, if k == 0 || y >= TWO_52 then y else TWO_52);
    } else {
      if y >= TWO_52 {
        DoubleWhole(y);
      }
      FineNearest(2.0 * x, 2.0 * y, k - 1);
      HalfDistance(Fine(2.0 * x, k - 1), x, y);
    }
  }

  lemma {:induction false} CoarseNearest(x: Amount, y: Amount, k: nat)
    requires OnCoarse(y, k) && Coarse(x, k).Finite?
    ensures Distance(Coarse(x, k).value, x) <= Distance(y, x)
    decreases k
  {
    if k == 0 || x < TWO_53 {
      CoarseIsWhole(y, k);
      WholeNearest(x, y);
    } else if y >= TWO_53 {
      CoarseNearest(x / 2.0, y / 2.0, k - 1);
    } else {
      CoarseNearest(x / 2.0, TWO_52, k - 1);
    }
  }

  /** No representable number is nearer than the rounded one. */
  lemma RoundNearest(f: Format, x: Amount, y: Amount)
    requires IsFloat(f, y) && Round(f, x).Finite? && f.doublings > 0
    ensures Distance(Round(f, x).value, x) <= Distance(y, x)
  {
    if x < TWO_53 {
      if y >= TWO_53 {
        CoarseIsWhole(y, f.doublings);
        WholeIsFine(y, f.halvings);
      }
      FineNearest(x, y, f.halvings);
    } else if y < TWO_53 {
      CoarseNearest(x, TWO_53, f.doublings);
    } else {
      CoarseNearest(x, y, f.doublings);
    }
  }

  // ---- rounding gives representable numbers, and keeps them ----------------

  lemma {:induction false} FineOnFine(x: Amount, k: nat)
    requires x <= TWO_53
    ensures OnFine(Fine(x, k), k) && Fine(x, k) <= TWO_53
    decreases k
  {
    WholeIsFine(TWO_53, k);
    FineNearest(x, TWO_53, k);
    if k > 0 && x < TWO_52 {
      FineOnFine(2.0 * x, k - 1);
    } else {
      WholeIsFine(Fine(x, k), k);
    }
  }

  lemma {:induction false} CoarseOnCoarse(x: Amount, k: nat)
    requires x >= TWO_52 && Coarse(x, k).Finite?
    ensures OnCoarse(Coarse(x, k).value, k)
    decreases k
  {
    if k > 0 {
      if x >= TWO_53 {
        CoarseOnCoarse(x / 2.0, k - 1);
        CoarseAtLeast(x, k);
      } else if HalfEven(x) as real >= TWO_53 {
        HalfEvenNearest(x, 9007199254740992);
        assert HalfEven(x) as real == TWO_53;
      }
    }
  }

  lemma CoarseAtLeast(x: Amount, k: nat)
    requires x >= TWO_53 && k > 0 && Coarse(x, k).Finite?
    ensures Coarse(x, k).value >= TWO_53
  {
    CoarseNearest(x, TWO_53, k);
  }

  lemma RoundIsFloat(f: Format, x: Amount)
    requires Round(f, x).Finite? && f.doublings > 0
    ensures IsFloat(f, Round(f, x).value)
  {
    if x < TWO_53 {
      FineOnFine(x, f.halvings);
    } else {
      CoarseOnCoarse(x, f.doublings);
      CoarseAtLeast(x, f.doublings);
    }
  }

  lemma {:induction false} CoarseExact(x: Amount, k: nat)
    requires OnCoarse(x, k)
    ensures Coarse(x, k) == Finite(x)
    decreases k
  {
    if x < TWO_53 {
      HalfEvenNearest(x, x.Floor);
    } else {
      CoarseExact(x / 2.0, k - 1);
    }
  }

  /** A representable number is rounded to itself. */
  lemma RoundExact(f: Format, x: Amount)
    requires IsFloat(f, x) && f.doublings > 0
    ensures Round(f, x) == Finite(x)
  {
    if x < TWO_53 {
      RoundNearest(f, x, x);
    } else {
      CoarseExact(x, f.doublings);
    }
  }

  /** Whole numbers up to 2^53 are representable. */
  lemma WholeIsFloat(f: Format, x: Amount)
    requires Whole(x) && x <= TWO_53 && f.doublings > 0
    ensures IsFloat(f, x)
  {
    WholeIsFine(x, f.halvings);
  }

  // ---- range and spacing ---------------------------------------------------

  /** 2^52 doubled `k` times. */
  function Reach(k: nat): Amount {
    if k == 0 then TWO_52 else 2.0 * Reach(k - 1)
  }

  lemma {:induction false} CoarseFinite(x: Amount, k: nat)
    requires x <= Reach(k)
    ensures Coarse(x, k).Finite? && Coarse(x, k).value <= Reach(k)
    decreases k
  {
    if k == 0 {
      HalfEvenNearest(x, 4503599627370496);
    } else if x >= TWO_53 {
      CoarseFinite(x / 2.0, k - 1);
    } else {
      HalfEvenNearest(x, 9007199254740992);
      ReachGrows(k);
    }
  }

  lemma {:induction false} ReachGrows(k: nat)
    requires k > 0
    ensures Reach(k) >= TWO_53
  {
    if k > 1 {
      ReachGrows(k - 1);
    }
  }

  /** `y` doubled `k` times. */
  function Doubled(y: Amount, k: nat): Amount
    decreases k
  {
    if k == 0 then y else Doubled(2.0 * y, k - 1)
  }

  lemma {:induction false} DoubledGrows(y: Amount, k: nat)
    ensures Doubled(y, k) >= y
    decreases k
  {
    if k > 0 {
      DoubledGrows(2.0 * y, k - 1);
    }
  }

  /** A number that becomes whole by `j` doublings, still below 2^53, is representable. */
  lemma {:induction false} DoubledIsFine(y: Amount, j: nat, k: nat)
    requires j <= k && Whole(Doubled(y, j)) && Doubled(y, j) <= TWO_53
    ensures OnFine(y, k)
    decreases j
  {
    if j == 0 {
      WholeIsFine(y, k);
    } else if y >= TWO_52 {
      DoubledGrows(2.0 * y, j - 1);
    } else {
      DoubledIsFine(2.0 * y, j - 1, k - 1);
    }
  }

  lemma {:induction false} ReachFar(k: nat)
    requires k >= 12
    ensures Reach(k) >= TWO_64
  {
    if k == 12 {
      assert Reach(4) == 16.0 * TWO_52 && Reach(8) == 256.0 * TWO_52;
    } else {
      ReachFar(k - 1);
    }
  }

  lemma RoundFinite(f: Format, x: Amount)
    requires x <= TWO_64 && f.doublings >= 12
    ensures Round(f, x).Finite?
  {
    if x >= TWO_53 {
      ReachFar(f.doublings);
      CoarseFinite(x, f.doublings);
    }
  }

  lemma {:induction false} DoubledMore(y: Amount, j: nat, k: nat)
    ensures Doubled(y, j + k) == Doubled(Doubled(y, j), k)
    decreases j
  {
    if j > 0 {
      DoubledMore(2.0 * y, j - 1, k);
    }
  }

  lemma DoubledTen(y: Amount)
    ensures Doubled(y, 5) == 32.0 * y && Doubled(y, 10) == 1024.0 * y
  {
    DoubledMore(y, 5, 5);
  }

  lemma DoubledThirty(y: Amount)
    ensures Doubled(y, 30) == 1073741824.0 * y
  {
    DoubledTen(y);
    DoubledMore(y, 10, 10);
    DoubledTen(1024.0 * y);
    DoubledMore(y, 20, 10);
    DoubledTen(1048576.0 * y);
  }

  /** Below 2^23 no number is further than 2^-31 from a representable one. */
  lemma RoundShort(f: Format, x: Amount)
    requires x < 8388608.0 && f.halvings >= 30 && f.doublings > 0
    ensures Round(f, x).Finite? && Distance(Round(f, x).value, x) <= 0.5 / 1073741824.0
  {
    var m := HalfEven(1073741824.0 * x);
    HalfEvenNearest(1073741824.0 * x, 9007199254740992);
    var y: Amount := m as real / 1073741824.0;
    DoubledThirty(y);
    DoubledIsFine(y, 30, f.halvings);
    RoundNearest(f, x, y);
  }

  /** A representable number that reaches [2^52, 2^53) by `j` doublings is a whole number of `2^-j`. */
  lemma {:induction false} FineDoubled(y: Amount, j: nat, k: nat)
    requires OnFine(y, k) && j <= k && TWO_52 <= Doubled(y, j) < TWO_53
    ensures Whole(Doubled(y, j))
    decreases j
  {
    if j > 0 {
      if y >= TWO_52 {
        DoubledGrows(2.0 * y, j - 1);
      } else {
        FineDoubled(2.0 * y, j - 1, k - 1);
      }
    }
  }

  /** In [2^23, 2^24) the representable numbers are multiples of 2^-29. */
  lemma LongSpacing(f: Format, y: Amount)
    requires IsFloat(f, y) && 8388608.0 <= y < 16777216.0 && f.halvings >= 29
    ensures Whole(536870912.0 * y)
  {
    DoubledMore(y, 29, 1);
    DoubledThirty(y);
    assert Doubled(Doubled(y, 29), 1) == 2.0 * Doubled(y, 29);
    FineDoubled(y, 29, f.halvings);
  }

  // ---- significands --------------------------------------------------------

  /** `x` halved `k` times. */
  function Halved(x: Amount, k: nat): Amount
    decreases k
  {
    if k == 0 then x else Halved(x / 2.0, k - 1)
  }

  /**
   Below 2^53 the number is scaled up until it has 53 bits before the point, or as far as the format goes, and the
   whole number nearest to that, the even one of two, is the significand.
   */
  lemma {:induction false} FineSignificand(x: Amount, k: nat) returns (j: nat)
    ensures j <= k && Doubled(Fine(x, k), j) == HalfEven(Doubled(x, j)) as real
    ensures j == k || Doubled(x, j) >= TWO_52
    ensures j > 0 ==> Doubled(x, j - 1) < TWO_52
    decreases k
  {
    if k == 0 || x >= TWO_52 {
      j := 0;
    } else {
      var i := FineSignificand(2.0 * x, k - 1);
      j := i + 1;
    }
  }

  /** From 2^53 on it is scaled down until it has 53 bits; the result is infinite when the format ends before. */
  lemma {:induction false} CoarseSignificand(x: Amount, k: nat) returns (j: nat)
    ensures j <= k && (j == k || Halved(x, j) < TWO_53)
    ensures j > 0 ==> Halved(x, j - 1) >= TWO_53
    ensures Coarse(x, k) == Infinite <==> j == k && HalfEven(Halved(x, j)) as real >= TWO_53
    ensures Coarse(x, k).Finite? ==> HalfEven(Halved(x, j)) >= 0 && Coarse(x, k).value == Doubled(HalfEven(Halved(x, j)) as real, j)
    decreases k
  {
    if k == 0 || x < TWO_53 {
      j := 0;
    } else {
      var i := CoarseSignificand(x / 2.0, k - 1);
      j := i + 1;
      if Coarse(x / 2.0, k - 1).Finite? {
        DoubledTwice(HalfEven(Halved(x / 2.0, i)) as real, i);
      }
    }
  }

  lemma {:induction false} DoubledTwice(y: Amount, k: nat)
    ensures Doubled(y, k + 1) == 2.0 * Doubled(y, k)
    decreases k
  {
    if k > 0 {
      DoubledTwice(2.0 * y, k - 1);
    }
  }

  // ---- the representable numbers, by significand and exponent --------------

  /** A whole number below 2^53, scaled down by at most `f.halvings` or up by at most `f.doublings` powers of two. */
  ghost predicate Represents(f: Format, m: nat, j: nat, y: Amount) {
    && m as real < TWO_53
    && ((j <= f.halvings && Doubled(y, j) == m as real) || (j <= f.doublings && y == Doubled(m as real, j)))
  }

  lemma {:induction false} FineRepresents(y: Amount, k: nat) returns (m: nat, j: nat)
    requires y < TWO_53 && OnFine(y, k)
    ensures m as real < TWO_53 && j <= k && Doubled(y, j) == m as real
    decreases k
  {
    if k == 0 || y >= TWO_52 {
      m, j := y.Floor, 0;
    } else {
      var i;
      m, i := FineRepresents(2.0 * y, k - 1);
      j := i + 1;
    }
  }

  lemma {:induction false} CoarseRepresents(y: Amount, k: nat) returns (m: nat, j: nat)
    requires OnCoarse(y, k)
    ensures m as real < TWO_53 && j <= k && y == Doubled(m as real, j)
    decreases k
  {
    if y < TWO_53 {
      m, j := y.Floor, 0;
    } else {
      var i;
      m, i := CoarseRepresents(y / 2.0, k - 1);
      j := i + 1;
      DoubledTwice(m as real, i);
    }
  }

  lemma {:induction false} UpIsCoarse(m: nat, j: nat, k: nat, y: Amount)
    requires m as real < TWO_53 && j <= k && y == Doubled(m as real, j)
    ensures OnCoarse(y, k) && Whole(y)
    decreases j
  {
    if j == 0 {
      assert y.Floor == m;
    } else {
      DoubledTwice(m as real, j - 1);
      UpIsCoarse(m, j - 1, k - 1, y / 2.0);
      DoubleWhole(y / 2.0);
    }
  }

  /** The representable numbers are exactly those. */
  lemma FloatIff(f: Format, y: Amount)
    ensures IsFloat(f, y) <==> exists m: nat, j: nat :: Represents(f, m, j, y)
  {
    if IsFloat(f, y) {
      var m, j;
      if y < TWO_53 {
        m, j := FineRepresents(y, f.halvings);
      } else {
        m, j := CoarseRepresents(y, f.doublings);
      }
      assert Represents(f, m, j, y);
    }
    forall m: nat, j: nat | Represents(f, m, j, y)
      ensures IsFloat(f, y)
    {
      if j <= f.halvings && Doubled(y, j) == m as real {
        DoubledGrows(y, j);
        assert (m as real).Floor == m;
        DoubledIsFine(y, j, f.halvings);
      } else {
        UpIsCoarse(m, j, f.doublings, y);
        WholeIsFine(y, f.halvings);
      }
    }
  }
}
