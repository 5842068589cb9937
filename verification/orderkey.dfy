/** Fractional order keys (utils/orderkey.ts).

    Sibling tuples are ordered by decimal keys strictly between 0.1 and 0.9.
    `Between` finds a key strictly between two keys, preferring short keys
    near the midpoint; `Initial` seeds a batch of keys just above 0.5.

    Big.js numbers are exact decimals; a value is modelled as `Dec(n, k)`,
    standing for n * 10^-k. The same value has many representations
    (0.5 = Dec(5, 1) = Dec(50, 2)); comparisons are by value, and Big's
    coefficient length `c.length` is `CoeffLength`, which depends only on the
    value. */
module OrderKey {
  import opened Wrappers
  import opened Text
  import Lists

  datatype Dec = Dec(n: int, k: nat)

  /** `begin_key`, `end_key` and `new_range_start_key`. */
  const BeginKey := Dec(1, 1)
  const EndKey := Dec(9, 1)
  const NewRangeStartKey := Dec(5, 1)
  /** The multiplier `new Big('0.5')` used to halve the gap. */
  const Half := Dec(5, 1)

  datatype KeyError =
    | MalformedKey(key: Dec)
    | KeysOutOfOrder
    | UnexpectedMidpoint(mid: Dec)
    | NoCandidate

  function Abs(x: int): nat {
    if x < 0 then -x else x
  }

  function Max(x: nat, y: nat): nat {
    if x < y then y else x
  }

  // ---------------------------------------------------------------------------
  // Comparison by value
  // ---------------------------------------------------------------------------

  predicate Lt(x: Dec, y: Dec) {
    x.n * Pow10(y.k) < y.n * Pow10(x.k)
  }

  predicate Le(x: Dec, y: Dec) {
    x.n * Pow10(y.k) <= y.n * Pow10(x.k)
  }

  /** The coefficient of `d` written with `s` decimal places. */
  function Scale(d: Dec, s: nat): int
    requires d.k <= s
  {
    d.n * Pow10(s - d.k)
  }

  lemma MulAssoc(u: int, v: int, w: int)
    ensures u * (v * w) == (u * v) * w
  {
  }

  lemma MulMono(u: int, v: int, m: int)
    requires m > 0
    ensures u < v <==> u * m < v * m
    ensures u <= v <==> u * m <= v * m
  {
    assert v * m - u * m == (v - u) * m;
    if u < v {
      assert (v - u) * m > 0;
    } else {
      assert (u - v) * m >= 0;
    }
  }

  /** Cross-multiplied comparison: if A*P == B*Q then comparing u/P with v/Q
      is comparing u*A with v*B. */
  lemma CrossCompare(u: int, v: int, a: int, b: int, p: int, q: int)
    requires a > 0 && b > 0 && p > 0 && q > 0 && a * p == b * q
    ensures u * q < v * p <==> u * a < v * b
    ensures u * q <= v * p <==> u * a <= v * b
  {
    MulMono(u * q, v * p, a);
    assert u * q * a == (u * a) * q;
    assert v * p * a == v * (a * p) == v * (b * q) == (v * b) * q;
    MulMono(u * a, v * b, q);
  }

  lemma ScaleUp(x: Dec, s: nat, t: nat)
    requires x.k <= s
    ensures Scale(x, s + t) == Scale(x, s) * Pow10(t)
  {
    assert s + t - x.k == (s - x.k) + t;
    Pow10Add(s - x.k, t);
    MulAssoc(x.n, Pow10(s - x.k), Pow10(t));
  }

  /** Comparing by value is comparing coefficients at any common scale. */
  lemma CompareAtScale(x: Dec, y: Dec, s: nat)
    requires x.k <= s && y.k <= s
    ensures Lt(x, y) <==> Scale(x, s) < Scale(y, s)
    ensures Le(x, y) <==> Scale(x, s) <= Scale(y, s)
  {
    Pow10Add(s - x.k, x.k);
    Pow10Add(s - y.k, y.k);
    assert s - x.k + x.k == s && s - y.k + y.k == s;
    CrossCompare(x.n, y.n, Pow10(s - x.k), Pow10(s - y.k), Pow10(x.k), Pow10(y.k));
  }

  lemma LtTrans(x: Dec, y: Dec, z: Dec)
    requires Lt(x, y) && Lt(y, z)
    ensures Lt(x, z)
  {
    var s := x.k + y.k + z.k;
    CompareAtScale(x, y, s);
    CompareAtScale(y, z, s);
    CompareAtScale(x, z, s);
  }

  lemma LeLtTrans(x: Dec, y: Dec, z: Dec)
    requires Le(x, y) && Lt(y, z)
    ensures Lt(x, z)
  {
    var s := x.k + y.k + z.k;
    CompareAtScale(x, y, s);
    CompareAtScale(y, z, s);
    CompareAtScale(x, z, s);
  }

  // ---------------------------------------------------------------------------
  // Big.js attributes: sign, exponent, coefficient length
  // ---------------------------------------------------------------------------

  /** Big's `e === -1`: the first significant digit is the first decimal. */
  predicate ExpIsMinusOne(d: Dec) {
    Pow10(d.k) <= 10 * Abs(d.n) && Abs(d.n) < Pow10(d.k)
  }

  /** The test at orderkey.ts:33 passes: not `a <= 0.1`, sign +, exponent -1. */
  predicate LowerKeyOk(a: Dec) {
    !Le(a, BeginKey) && a.n >= 0 && ExpIsMinusOne(a)
  }

  /** The test at orderkey.ts:35 passes: not `b >= 0.9`, sign +, exponent -1. */
  predicate UpperKeyOk(b: Dec) {
    !Le(EndKey, b) && b.n >= 0 && ExpIsMinusOne(b)
  }

  /** The three source checks amount to plain range checks on the value. */
  lemma KeyCheckMeaning(d: Dec)
    ensures LowerKeyOk(d) <==> Lt(BeginKey, d) && Lt(d, Dec(1, 0))
    ensures UpperKeyOk(d) <==> Le(BeginKey, d) && Lt(d, EndKey)
  {
    var s := d.k + 1;
    CompareAtScale(d, BeginKey, s);
    CompareAtScale(BeginKey, d, s);
    CompareAtScale(EndKey, d, s);
    CompareAtScale(d, EndKey, s);
    CompareAtScale(d, Dec(1, 0), s);
    assert Scale(d, s) == 10 * d.n;
    assert Scale(BeginKey, s) == Pow10(d.k);
    assert Scale(EndKey, s) == 9 * Pow10(d.k);
  }

  /** A key as `between` returns it: no trailing zero, acceptable to `between`
      on either side. */
  predicate IsKey(d: Dec) {
    Normalized(d) && LowerKeyOk(d) && UpperKeyOk(d)
  }

  lemma InsideRangeIsAccepted(d: Dec)
    requires Lt(BeginKey, d) && Lt(d, EndKey)
    ensures LowerKeyOk(d) && UpperKeyOk(d)
  {
    KeyCheckMeaning(d);
    LtTrans(d, EndKey, Dec(1, 0));
    CompareAtScale(BeginKey, d, d.k + 1);
  }

  function StripZeros(m: nat): nat {
    if m > 0 && m % 10 == 0 then StripZeros(m / 10) else m
  }

  /** Big's `c.length`: significant digits, trailing zeros dropped. */
  function CoeffLength(d: Dec): nat {
    NumDigits(StripZeros(Abs(d.n)))
  }

  predicate Normalized(d: Dec) {
    d.k == 0 || d.n % 10 != 0
  }

  /** Drops trailing fractional zeros, as Big.js does on every result. */
  function Normalize(d: Dec): (r: Dec)
    ensures Normalized(r)
    ensures r.k <= d.k && Scale(r, d.k) == d.n
    ensures CoeffLength(r) == CoeffLength(d)
    decreases d.k
  {
    if d.k > 0 && d.n % 10 == 0 then
      var shorter := Dec(d.n / 10, d.k - 1);
      var r := Normalize(shorter);
      DropZeroSameValue(d, r);
      DropZeroSameLength(d);
      r
    else d
  }

  lemma DropZeroSameValue(d: Dec, r: Dec)
    requires d.k > 0 && d.n % 10 == 0
    requires r.k <= d.k - 1 && Scale(r, d.k - 1) == d.n / 10
    ensures Scale(r, d.k) == d.n
  {
    var x := Pow10(d.k - 1 - r.k);
    assert d.k - r.k == (d.k - 1 - r.k) + 1;
    assert Pow10(d.k - r.k) == 10 * x;
    MulAssoc(r.n, 10, x);
    assert r.n * (10 * x) == 10 * (r.n * x);
  }

  lemma DropZeroSameLength(d: Dec)
    requires d.k > 0 && d.n % 10 == 0
    ensures CoeffLength(Dec(d.n / 10, d.k - 1)) == CoeffLength(d)
  {
    if d.n > 0 {
      assert Abs(d.n) == d.n;
    } else if d.n < 0 {
      assert Abs(d.n / 10) == Abs(d.n) / 10;
    }
  }

  /** Normalizing does not change the value. */
  lemma NormalizeSameValue(d: Dec, y: Dec)
    ensures Lt(Normalize(d), y) <==> Lt(d, y)
    ensures Lt(y, Normalize(d)) <==> Lt(y, d)
    ensures Le(Normalize(d), y) <==> Le(d, y)
  {
    var r := Normalize(d);
    var s := d.k + y.k;
    ScaleUp(r, d.k, y.k);
    ScaleUp(d, d.k, y.k);
    CompareAtScale(r, y, s);
    CompareAtScale(y, r, s);
    CompareAtScale(d, y, s);
    CompareAtScale(y, d, s);
  }

  // ---------------------------------------------------------------------------
  // Arithmetic and rounding, exact as in Big.js
  // ---------------------------------------------------------------------------

  function Add(x: Dec, y: Dec): Dec {
    var s := Max(x.k, y.k);
    Dec(Scale(x, s) + Scale(y, s), s)
  }

  function Sub(x: Dec, y: Dec): Dec {
    var s := Max(x.k, y.k);
    Dec(Scale(x, s) - Scale(y, s), s)
  }

  function Mul(x: Dec, y: Dec): Dec {
    Dec(x.n * y.n, x.k + y.k)
  }

  /** `a.plus(b.minus(a).times(0.5))`: twice the result is a + b, written one
      decimal place finer than the longer operand. */
  function Midpoint(a: Dec, b: Dec): (m: Dec)
    ensures m.k == Max(a.k, b.k) + 1
    ensures 2 * m.n == Scale(a, m.k) + Scale(b, m.k)
  {
    var m := Add(a, Mul(Sub(b, a), Half));
    var s := Max(a.k, b.k);
    assert Scale(a, s + 1) == 10 * Scale(a, s);
    assert Scale(b, s + 1) == 10 * Scale(b, s);
    m
  }

  datatype RoundingMode = RoundDown | RoundHalfUp | RoundHalfEven | RoundUp

  /** A multiple of `p` leaves no remainder. */
  lemma ModOfMultiple(q: int, p: int)
    requires p > 0
    ensures (q * p) % p == 0
  {
    var t := q - (q * p) / p;
    assert q * p == p * ((q * p) / p) + (q * p) % p;
    assert p * t == (q * p) % p;
    if t >= 1 {
      MulMono(1, t, p);
    } else if t <= -1 {
      MulMono(t, 0, p);
    }
  }

  /** Whether rounding `r` units of `p` (0 <= r < p) away from the lower
      multiple goes up, for a lower quotient `q`. */
  predicate RoundsUp(q: nat, r: nat, p: nat, mode: RoundingMode) {
    match mode
    case RoundDown => false
    case RoundHalfUp => 2 * r >= p
    case RoundHalfEven => 2 * r > p || (2 * r == p && q % 2 == 1)
    case RoundUp => r > 0
  }

  lemma DivMod(m: nat, p: nat)
    requires p >= 1
    ensures m == (m / p) * p + m % p && 0 <= m % p < p
  {}
  lemma MulSucc(q: int, p: int)
    ensures (q + 1) * p == q * p + p
  {}
  /** Rounding to the lower multiple `x` or to `x + p`, as `RoundsUp` decides. */
  lemma RoundFacts(m: nat, p: nat, q: nat, r: nat, x: int, mode: RoundingMode, up: bool, y: int)
    requires p >= 1 && 0 <= r < p && m == x + r && up == RoundsUp(q, r, p, mode)
    requires y == if up then x + p else x
    ensures mode == RoundDown ==> y <= m < y + p
    ensures mode == RoundUp ==> y - p < m <= y
    ensures mode == RoundHalfUp ==> 2 * (m - y) < p && 2 * (y - m) <= p
    ensures mode == RoundHalfEven ==> Abs(2 * (y - m)) <= p
    ensures mode == RoundHalfEven && Abs(2 * (y - m)) == p ==> (if up then q + 1 else q) % 2 == 0
  {}
  /** The number of units of `p` that `m` rounds to. */
  function RoundMagnitude(m: nat, p: nat, mode: RoundingMode): (q: nat)
    requires p >= 1
    ensures mode == RoundDown ==> q * p <= m < q * p + p
    ensures mode == RoundUp ==> q * p - p < m <= q * p
    ensures mode == RoundHalfUp ==> 2 * (m - q * p) < p && 2 * (q * p - m) <= p
    ensures mode == RoundHalfEven ==> Abs(2 * (q * p - m)) <= p
    ensures mode == RoundHalfEven && Abs(2 * (q * p - m)) == p ==> q % 2 == 0
  {
    var q := m / p;
    var r := m % p;
    DivMod(m, p);
    var up := RoundsUp(q, r, p, mode);
    var res := if up then q + 1 else q;
    MulSucc(q, p);
    RoundFacts(m, p, q, r, q * p, mode, up, res * p);
    res
  }

  /** `d.round(dp, mode)`: the magnitude is rounded to `dp` decimal places.
      The result is written at `d`'s own scale, so that all candidates of one
      call to `Between` share a scale. */
  function Round(d: Dec, dp: nat, mode: RoundingMode): (r: Dec)
    ensures r.k == d.k
    ensures d.k <= dp ==> r == d
    ensures d.k > dp ==> r.n % Pow10(d.k - dp) == 0
    ensures d.n >= 0 ==> r.n >= 0
    ensures d.n >= 0 && d.k > dp ==>
      var p := Pow10(d.k - dp);
      && (mode == RoundDown ==> r.n <= d.n < r.n + p)
      && (mode == RoundUp ==> r.n - p < d.n <= r.n)
      && (mode == RoundHalfUp ==> 2 * (d.n - r.n) < p && 2 * (r.n - d.n) <= p)
      && (mode == RoundHalfEven ==> Abs(2 * (r.n - d.n)) <= p)
  {
    if d.k <= dp then d
    else
      var p := Pow10(d.k - dp);
      var q := RoundMagnitude(Abs(d.n), p, mode);
      var units := q * p;
      ModOfMultiple(q, p);
      ModOfMultiple(-(q as int), p);
      assert -(q as int) * p == -units;
      Dec(if d.n < 0 then -units else units, d.k)
  }

  // ---------------------------------------------------------------------------
  // between (orderkey.ts:26-62)
  // ---------------------------------------------------------------------------

  /** The midpoint followed by its roundings to one significant digit fewer. */
  function Candidates(mid: Dec): (cs: seq<Dec>)
    ensures |cs| == 5 && cs[0] == mid
    ensures forall i :: 0 <= i < |cs| ==> cs[i].k == mid.k
  {
    var dp := CoeffLength(mid) - 1;
    [mid, Round(mid, dp, RoundDown), Round(mid, dp, RoundHalfUp),
     Round(mid, dp, RoundHalfEven), Round(mid, dp, RoundUp)]
  }

  predicate Inside(x: Dec, a: Dec, b: Dec) {
    Lt(a, x) && Lt(x, b)
  }

  /** Distance to the midpoint, for candidates written at the midpoint's scale. */
  function Dist(mid: Dec, x: Dec): nat {
    Abs(mid.n - x.n)
  }

  function DistKey(mid: Dec): Dec -> int {
    x => Dist(mid, x)
  }

  const CoeffLengthKey: Dec -> int := x => CoeffLength(x)

  function InsideOf(a: Dec, b: Dec): Dec -> bool {
    x => Inside(x, a, b)
  }

  /** The candidates strictly between `a` and `b`, in candidate order. */
  function Survivors(a: Dec, b: Dec): seq<Dec> {
    Lists.Filter(Candidates(Midpoint(a, b)), InsideOf(a, b))
  }

  function Between(a: Dec, b: Dec): (r: Result<Dec, KeyError>)
    ensures r.Success? <==> LowerKeyOk(a) && UpperKeyOk(b) && Lt(a, b)
    ensures !LowerKeyOk(a) ==> r == Failure(MalformedKey(a))
    ensures LowerKeyOk(a) && !UpperKeyOk(b) ==> r == Failure(MalformedKey(b))
    ensures LowerKeyOk(a) && UpperKeyOk(b) && Le(b, a) ==> r == Failure(KeysOutOfOrder)
    ensures r.Success? ==> Lt(a, r.value) && Lt(r.value, b) && IsKey(r.value)
  {
    if !LowerKeyOk(a) then Failure(MalformedKey(a))
    else if !UpperKeyOk(b) then Failure(MalformedKey(b))
    else if Le(b, a) then Failure(KeysOutOfOrder)
    else
      var mid := Midpoint(a, b);
      MidpointInside(a, b);
      if !(mid.n >= 0 && ExpIsMinusOne(mid) && Lt(a, mid) && Lt(mid, b)) then
        Failure(UnexpectedMidpoint(mid))
      else
        var survivors := Survivors(a, b);
        assert mid in survivors;
        if |survivors| == 0 then Failure(NoCandidate)
        else
          // orderkey.ts:56-61: fewest digits first, then nearest, then earliest
          var chosen := Lists.FirstBest(survivors, CoeffLengthKey, DistKey(mid));
          BetweenResultIsKey(a, b, chosen);
          Success(Normalize(chosen))
  }

  /** The check at orderkey.ts:43-44 never fires once :33-38 have passed. */
  lemma MidpointInside(a: Dec, b: Dec)
    requires LowerKeyOk(a) && UpperKeyOk(b) && Lt(a, b)
    ensures var m := Midpoint(a, b);
      m.n > 0 && ExpIsMinusOne(m) && Lt(a, m) && Lt(m, b)
  {
    var m := Midpoint(a, b);
    var s := m.k;
    KeyCheckMeaning(a);
    KeyCheckMeaning(b);
    CompareAtScale(a, b, s);
    CompareAtScale(a, m, s);
    CompareAtScale(m, b, s);
    CompareAtScale(BeginKey, a, s);
    CompareAtScale(b, EndKey, s);
    assert Scale(m, s) == m.n;
    assert Scale(BeginKey, s) == Pow10(s - 1);
    assert Scale(EndKey, s) == 9 * Pow10(s - 1);
    assert Pow10(s) == 10 * Pow10(s - 1);
  }

  lemma BetweenResultIsKey(a: Dec, b: Dec, x: Dec)
    requires LowerKeyOk(a) && UpperKeyOk(b) && Inside(x, a, b)
    ensures Lt(a, Normalize(x)) && Lt(Normalize(x), b) && IsKey(Normalize(x))
  {
    var r := Normalize(x);
    NormalizeSameValue(x, a);
    NormalizeSameValue(x, b);
    KeyCheckMeaning(a);
    KeyCheckMeaning(b);
    LtTrans(BeginKey, a, r);
    LtTrans(r, b, EndKey);
    InsideRangeIsAccepted(r);
  }

  // ---------------------------------------------------------------------------
  // Which candidate `between` settles on
  // ---------------------------------------------------------------------------

  /** `between` returns the preferred survivor: fewest digits, then nearest to
      the midpoint, then first in the order midpoint, down, half-up,
      half-even, up. */
  lemma BetweenPicksPreferred(a: Dec, b: Dec)
    requires LowerKeyOk(a) && UpperKeyOk(b) && Lt(a, b)
    ensures exists j :: Lists.IsFirstBest(Survivors(a, b), CoeffLengthKey, DistKey(Midpoint(a, b)), j)
                        && Between(a, b).value == Normalize(Survivors(a, b)[j])
  {
    MidpointInside(a, b);
    assert Midpoint(a, b) in Survivors(a, b);
    Lists.FirstBestMeetsOrder(Survivors(a, b), CoeffLengthKey, DistKey(Midpoint(a, b)));
  }

  lemma {:induction false} StripZerosAtMost(m: nat)
    ensures StripZeros(m) <= m
  {
    if m > 0 && m % 10 == 0 {
      StripZerosAtMost(m / 10);
    }
  }

  /** A key has at most as many digits as decimal places. */
  lemma CoeffLengthAtMostPlaces(d: Dec)
    requires d.k >= 1 && Abs(d.n) < Pow10(d.k)
    ensures CoeffLength(d) <= d.k
  {
    StripZerosAtMost(Abs(d.n));
    NumDigitsBound(StripZeros(Abs(d.n)), d.k);
  }

  /** A key between `a` and `b` needs at most one digit more than the longer
      of the two: the midpoint has that many and is always a survivor. */
  lemma BetweenDigitGrowth(a: Dec, b: Dec)
    requires LowerKeyOk(a) && UpperKeyOk(b) && Lt(a, b)
    ensures CoeffLength(Between(a, b).value) <= Max(a.k, b.k) + 1
  {
    var mid := Midpoint(a, b);
    var survivors := Survivors(a, b);
    MidpointInside(a, b);
    assert survivors[0] == mid;
    BetweenPicksPreferred(a, b);
    var j :| Lists.IsFirstBest(survivors, CoeffLengthKey, DistKey(mid), j)
             && Between(a, b).value == Normalize(survivors[j]);
    CoeffLengthAtMostPlaces(mid);
  }

  // ---------------------------------------------------------------------------
  // initial (orderkey.ts:14-20)
  // ---------------------------------------------------------------------------

  /** Number of characters of `String(size)`. */
  function Width(size: int): (w: nat)
    ensures w >= 1
  {
    |IntToString(size)|
  }

  /** The digits after the point of `'0.5' + String(i).padStart(width, '0')`. */
  function InitialFraction(i: nat, width: nat): (f: string)
    ensures AllDigits(f)
  {
    var padded := PadStart(NatToString(i), width, '0');
    PadStartValue(i, width);
    PrependDigit('5', padded);
    "5" + padded
  }

  lemma PrependDigit(c: char, s: string)
    requires IsDigit(c) && AllDigits(s)
    ensures AllDigits([c] + s)
  {
    var t := [c] + s;
    forall j | 0 <= j < |t|
      ensures IsDigit(t[j])
    {
      if j > 0 {
        assert t[j] == s[j - 1];
      }
    }
  }

  /** That string read as a decimal: its digits after the point, and their count. */
  function InitialKeyText(i: nat, width: nat): Dec {
    var fraction := InitialFraction(i, width);
    Dec(ParseDigits(fraction), |fraction|)
  }

  /** When `i` fits in `width` digits, the text reads as 0.5 followed by `i`
      written with exactly `width` digits, so Big's `toString` gives back the
      `i`-th key. */
  lemma InitialKeyValue(i: nat, width: nat)
    requires width >= 1 && i < Pow10(width)
    ensures InitialKeyText(i, width) == Dec(5 * Pow10(width) + i, width + 1)
  {
    var padded := PadStart(NatToString(i), width, '0');
    var f := InitialFraction(i, width);
    assert f == "5" + padded;
    assert |padded| == width by {
      NumDigitsBound(i, width);
    }
    assert AllDigits(padded) && ParseDigits(padded) == i by {
      PadStartValue(i, width);
    }
    assert ParseDigits(f) == 5 * Pow10(width) + i by {
      LeadingFive();
      ParseDigitsAppend("5", padded);
    }
  }

  lemma LeadingFive()
    ensures AllDigits("5") && ParseDigits("5") == 5
  {
    assert "5"[..0] == "";
  }

  /** The `i`-th key of `initial` for keys of `width` digits after the 5,
      as Big's `toString` writes it back (trailing zeros dropped). */
  function InitialKey(i: nat, width: nat): Dec {
    Normalize(Dec(5 * Pow10(width) + i, width + 1))
  }

  /** `initial(size)`: `size` keys from 0.5 upwards, all with the same number
      of decimal places before trailing zeros are dropped. */
  method Initial(size: int) returns (keys: seq<Dec>)
    ensures |keys| == if size > 0 then size else 0
    ensures forall i :: 0 <= i < |keys| ==> keys[i] == InitialKey(i, Width(size))
    ensures forall i :: 0 <= i < |keys| ==>
      IsKey(keys[i]) && Le(NewRangeStartKey, keys[i]) && Lt(keys[i], Dec(6, 1))
    ensures forall i, j :: 0 <= i < j < |keys| ==> Lt(keys[i], keys[j])
  {
    var width := Width(size);
    var base := 5 * Pow10(width);
    if size > 0 {
      assert width == NumDigits(size);
      NumDigitsBound(size, width);
    }
    keys := [];
    var i := 0;
    while i < size
      invariant 0 <= i <= (if size > 0 then size else 0) && |keys| == i
      invariant forall j :: 0 <= j < i ==> keys[j] == InitialKey(j, width)
    {
      keys := keys + [Normalize(Dec(base + i, width + 1))];
      i := i + 1;
    }
    forall j | 0 <= j < |keys|
      ensures IsKey(keys[j]) && Le(NewRangeStartKey, keys[j]) && Lt(keys[j], Dec(6, 1))
    {
      InitialKeyInRange(j, width);
    }
    forall j, l | 0 <= j < l < |keys|
      ensures Lt(keys[j], keys[l])
    {
      InitialKeysIncrease(j, l, width);
    }
  }

  /** Every initial key lies in [0.5, 0.6) and is acceptable to `between`. */
  lemma InitialKeyInRange(i: nat, width: nat)
    requires width >= 1 && i < Pow10(width)
    ensures var key := InitialKey(i, width);
      IsKey(key) && Le(NewRangeStartKey, key) && Lt(key, Dec(6, 1))
  {
    var raw := Dec(5 * Pow10(width) + i, width + 1);
    InitialRawInRange(i, width);
    NormalizedInRange(raw);
    assert InitialKey(i, width) == Normalize(raw);
  }

  /** `d` lies in [0.5, 0.6), and so inside (`begin_key`, `end_key`). */
  predicate InInitialRange(d: Dec) {
    Le(NewRangeStartKey, d) && Lt(d, Dec(6, 1)) && Lt(BeginKey, d) && Lt(d, EndKey)
  }

  /** Normalising a value in [0.5, 0.6) gives a valid key in the same range. */
  lemma NormalizedInRange(raw: Dec)
    requires InInitialRange(raw)
    ensures var key := Normalize(raw);
      IsKey(key) && Le(NewRangeStartKey, key) && Lt(key, Dec(6, 1))
  {
    NormalizeSameValue(raw, NewRangeStartKey);
    NormalizeSameValue(raw, Dec(6, 1));
    NormalizeSameValue(raw, BeginKey);
    NormalizeSameValue(raw, EndKey);
    BetweenRangeIsKey(Normalize(raw));
  }

  lemma InitialRawInRange(i: nat, width: nat)
    requires i < Pow10(width)
    ensures InInitialRange(Dec(5 * Pow10(width) + i, width + 1))
  {
    var raw := Dec(5 * Pow10(width) + i, width + 1);
    var s := width + 1;
    var p := Pow10(width);
    assert Pow10(s - 1) == p;
    assert Scale(raw, s) == raw.n;
    assert Scale(NewRangeStartKey, s) == 5 * p;
    assert Scale(Dec(6, 1), s) == 6 * p;
    assert Scale(BeginKey, s) == p;
    assert Scale(EndKey, s) == 9 * p;
    CompareAtScale(NewRangeStartKey, raw, s);
    CompareAtScale(raw, Dec(6, 1), s);
    CompareAtScale(BeginKey, raw, s);
    CompareAtScale(raw, EndKey, s);
  }

  lemma BetweenRangeIsKey(d: Dec)
    requires Normalized(d) && Lt(BeginKey, d) && Lt(d, EndKey)
    ensures IsKey(d)
  {
    InsideRangeIsAccepted(d);
  }

  lemma SameScaleLt(x: Dec, y: Dec)
    requires x.k == y.k && x.n < y.n
    ensures Lt(x, y)
  {
    MulMono(x.n, y.n, Pow10(x.k));
  }

  /** Later initial keys are larger. */
  lemma InitialKeysIncrease(j: nat, i: nat, width: nat)
    requires width >= 1 && j < i < Pow10(width)
    ensures Lt(InitialKey(j, width), InitialKey(i, width))
  {
    var x := Dec(5 * Pow10(width) + j, width + 1);
    var y := Dec(5 * Pow10(width) + i, width + 1);
    SameScaleLt(x, y);
    NormalizeSameValue(x, y);
    NormalizeSameValue(y, Normalize(x));
  }

  /** Adjacent initial keys can always be split by `between`. */
  lemma InitialKeysSplittable(keys: seq<Dec>, i: nat)
    requires forall j :: 0 <= j < |keys| ==> IsKey(keys[j])
    requires forall j, l :: 0 <= j < l < |keys| ==> Lt(keys[j], keys[l])
    requires i + 1 < |keys|
    ensures Between(keys[i], keys[i + 1]).Success?
  {
  }
}
