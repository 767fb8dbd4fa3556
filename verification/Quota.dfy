/**
 Conversion of computed prices to integer quota, with saturation, and the settlement of a channel test.
 Floating point is kept apart from the arithmetic: the results hold for every rounding that keeps order.
 */
module Quota {
  import opened Wrappers

  const MAX_QUOTA := 0x7FFF_FFFF
  const MIN_QUOTA := -0x8000_0000
  const MAX_WALLET_QUOTA := 0x1F_FFFF_FFFF_FFFF

  datatype Float = NegInf | Finite(value: real) | PosInf | NaN

  /** `a <= b` of two numbers. */
  predicate Le(a: Float, b: Float) {
    match (a, b)
    case (NaN, _) => false
    case (_, NaN) => false
    case (NegInf, _) => true
    case (_, PosInf) => true
    case (Finite(x), Finite(y)) => x <= y
    case (_, _) => false
  }

  // ---- saturation

  /** `int(value)`: towards zero. */
  function Truncated(x: real): int { if x >= 0.0 then x.Floor else -(-x).Floor }

  datatype Conversion = Conversion(quota: int, clamped: bool)

  /** `saturateQuotaBounded`. */
  function Saturate(value: Float, max: int, min: int): Conversion {
    match value
    case NaN => Conversion(0, true)
    case PosInf => Conversion(max, true)
    case NegInf => Conversion(min, true)
    case Finite(x) =>
      if x > max as real then Conversion(max, true)
      else if x < min as real then Conversion(min, true)
      else Conversion(Truncated(x), false)
  }

  /** Towards zero: no further from zero than the number, and by less than one. */
  lemma TruncatedIsNearest(x: real, n: int)
    ensures Truncated(x) == n <==>
            if x >= 0.0 then n as real <= x < n as real + 1.0 else n as real - 1.0 < x <= n as real
  {
  }

  lemma TruncatedKeepsOrder(x: real, y: real)
    requires x <= y
    ensures Truncated(x) <= Truncated(y)
  {
    FloorKeepsOrder(x, y);
    FloorKeepsOrder(-y, -x);
  }

  lemma FloorKeepsOrder(x: real, y: real)
    requires x <= y
    ensures x.Floor <= y.Floor
  {
  }

  lemma TruncatedInteger(n: int)
    ensures Truncated(n as real) == n
  {
  }

  /** Saturation lands within the bounds and keeps order. */
  lemma SaturateKeepsOrder(a: Float, b: Float, max: int, min: int)
    requires Le(a, b) && min <= max
    ensures min <= Saturate(a, max, min).quota <= Saturate(b, max, min).quota <= max
  {
    TruncatedInteger(max);
    TruncatedInteger(min);
    if a.Finite? && min as real <= a.value { TruncatedKeepsOrder(min as real, a.value); }
    if a.Finite? && a.value <= max as real { TruncatedKeepsOrder(a.value, max as real); }
    if b.Finite? && b.value <= max as real { TruncatedKeepsOrder(b.value, max as real); }
    if b.Finite? && min as real <= b.value { TruncatedKeepsOrder(min as real, b.value); }
    if a.Finite? && b.Finite? { TruncatedKeepsOrder(a.value, b.value); }
  }

  /** `strictQuota`. */
  function Strict(c: Conversion): Option<int> { if c.clamped then None else Some(c.quota) }

  /** A strict conversion succeeds exactly on the numbers within the bounds, where the checked one does not clamp. */
  lemma StrictExactly(value: Float, max: int, min: int)
    ensures var within := Le(Finite(min as real), value) && Le(value, Finite(max as real));
      && (Saturate(value, max, min).clamped <==> !within)
      && (Strict(Saturate(value, max, min)).Some? <==> within)
      && (within ==> value.Finite? && Strict(Saturate(value, max, min)) == Some(Truncated(value.value)))
  {
  }

  // ---- rounding

  /** `math.Round`: to the nearest integer, halves away from zero. */
  function Rounded(x: real): int { if x >= 0.0 then (x + 0.5).Floor else -(-x + 0.5).Floor }

  predicate Nearest(x: real, n: int) {
    if x >= 0.0 then n as real - 0.5 <= x < n as real + 0.5 else n as real - 0.5 < x <= n as real + 0.5
  }

  lemma RoundedIsNearest(x: real, n: int)
    ensures Rounded(x) == n <==> Nearest(x, n)
  {
  }

  lemma RoundedKeepsOrder(x: real, y: real)
    requires x <= y
    ensures Rounded(x) <= Rounded(y)
  {
    FloorKeepsOrder(x + 0.5, y + 0.5);
    FloorKeepsOrder(-y + 0.5, -x + 0.5);
  }

  function RoundFloat(value: Float): Float {
    if value.Finite? then Finite(Rounded(value.value) as real) else value
  }

  function QuotaRound(value: Float): int { Saturate(RoundFloat(value), MAX_QUOTA, MIN_QUOTA).quota }

  lemma QuotaRoundKeepsOrder(a: Float, b: Float)
    requires Le(a, b)
    ensures MIN_QUOTA <= QuotaRound(a) <= QuotaRound(b) <= MAX_QUOTA
  {
    if a.Finite? && b.Finite? { RoundedKeepsOrder(a.value, b.value); }
    SaturateKeepsOrder(RoundFloat(a), RoundFloat(b), MAX_QUOTA, MIN_QUOTA);
  }

  // ---- settlement

  /** How integers become floats, and how the exact result of an operation is rounded. */
  datatype Arithmetic = Arithmetic(fromInt: int -> real, round: real -> Float)

  predicate IntOrder(f: Arithmetic, x: int, y: int) { x <= y ==> f.fromInt(x) <= f.fromInt(y) }

  predicate RoundOrder(f: Arithmetic, x: real, y: real) { x <= y ==> Le(f.round(x), f.round(y)) }

  ghost predicate KeepsOrder(f: Arithmetic) {
    (forall x: int, y: int :: IntOrder(f, x, y)) && (forall x: real, y: real :: RoundOrder(f, x, y))
  }

  lemma RoundedQuotaKeepsOrder(f: Arithmetic, x: real, y: real)
    requires KeepsOrder(f) && x <= y
    ensures MIN_QUOTA <= QuotaRound(f.round(x)) <= QuotaRound(f.round(y)) <= MAX_QUOTA
  {
    assert RoundOrder(f, x, y);
    QuotaRoundKeepsOrder(f.round(x), f.round(y));
  }

  function Times(x: real, ratio: real): real { x * ratio }

  function CompletionQuota(f: Arithmetic, tokens: int, ratio: real): int {
    QuotaRound(f.round(Times(f.fromInt(tokens), ratio)))
  }

  function TokenQuota(f: Arithmetic, prompt: int, completionQuota: int): int {
    QuotaRound(f.round(f.fromInt(prompt) + f.fromInt(completionQuota)))
  }

  function ScaledQuota(f: Arithmetic, quota: int, modelRatio: real): int {
    var scaled := QuotaRound(f.round(Times(f.fromInt(quota), modelRatio)));
    if modelRatio != 0.0 && scaled <= 0 then 1 else scaled
  }

  /** The part of `settleTestQuota` that prices by ratio. */
  function Settle(f: Arithmetic, prompt: int, completion: int, completionRatio: real, modelRatio: real): int {
    ScaledQuota(f, TokenQuota(f, prompt, CompletionQuota(f, completion, completionRatio)), modelRatio)
  }

  /** The nearest quota to an integer. */
  function Clamp(n: int): int { if n > MAX_QUOTA then MAX_QUOTA else if n < MIN_QUOTA then MIN_QUOTA else n }

  lemma QuotaRoundIs(x: real, n: int)
    requires Nearest(x, n)
    ensures QuotaRound(Finite(x)) == Clamp(n)
  {
    RoundedIsNearest(x, n);
    TruncatedInteger(n);
  }

  lemma NearestInteger(n: int)
    ensures Nearest(n as real, n)
  {
  }

  ghost predicate Exact(f: Arithmetic) {
    (forall n: int :: f.fromInt(n) == n as real) && (forall x: real :: f.round(x) == Finite(x))
  }

  /** The product, rounded to the nearest integer. */
  predicate RoundsTo(tokens: int, ratio: real, n: int) { Nearest(tokens as real * ratio, n) }

  lemma CompletionIs(f: Arithmetic, tokens: int, ratio: real, c: int)
    requires Exact(f) && RoundsTo(tokens, ratio, c)
    ensures CompletionQuota(f, tokens, ratio) == Clamp(c)
  {
    QuotaRoundIs(Times(tokens as real, ratio), c);
  }

  lemma TokensAre(f: Arithmetic, prompt: int, quota: int)
    requires Exact(f)
    ensures TokenQuota(f, prompt, quota) == Clamp(prompt + quota)
  {
    NearestInteger(prompt + quota);
    QuotaRoundIs((prompt + quota) as real, prompt + quota);
    assert f.fromInt(prompt) + f.fromInt(quota) == (prompt + quota) as real;
  }

  lemma ScaledIs(f: Arithmetic, quota: int, ratio: real, s: int)
    requires Exact(f) && RoundsTo(quota, ratio, s)
    ensures ScaledQuota(f, quota, ratio) == if ratio != 0.0 && s <= 0 then 1 else Clamp(s)
  {
    QuotaRoundIs(Times(quota as real, ratio), s);
  }

  /** With exact arithmetic: the completion tokens times their ratio, rounded; plus the prompt tokens; times the model
      ratio, rounded; each step kept within the quotas, and at least 1 unless the model ratio is 0. */
  lemma SettleIs(f: Arithmetic, prompt: int, completion: int, completionRatio: real, modelRatio: real, c: int, s: int)
    requires Exact(f) && RoundsTo(completion, completionRatio, c)
    requires RoundsTo(Clamp(prompt + Clamp(c)), modelRatio, s)
    ensures Settle(f, prompt, completion, completionRatio, modelRatio)
         == if modelRatio != 0.0 && s <= 0 then 1 else Clamp(s)
  {
    CompletionIs(f, completion, completionRatio, c);
    TokensAre(f, prompt, Clamp(c));
    ScaledIs(f, Clamp(prompt + Clamp(c)), modelRatio, s);
  }

  lemma Scale(x: real, y: real, ratio: real)
    requires x <= y && ratio >= 0.0
    ensures Times(x, ratio) <= Times(y, ratio)
  {
    assert (y - x) * ratio >= 0.0;
  }

  lemma CompletionKeepsOrder(f: Arithmetic, c1: int, c2: int, ratio: real)
    requires KeepsOrder(f) && c1 <= c2 && ratio >= 0.0
    ensures CompletionQuota(f, c1, ratio) <= CompletionQuota(f, c2, ratio)
  {
    assert IntOrder(f, c1, c2);
    Scale(f.fromInt(c1), f.fromInt(c2), ratio);
    RoundedQuotaKeepsOrder(f, Times(f.fromInt(c1), ratio), Times(f.fromInt(c2), ratio));
  }

  lemma TokensKeepOrder(f: Arithmetic, p1: int, p2: int, q1: int, q2: int)
    requires KeepsOrder(f) && p1 <= p2 && q1 <= q2
    ensures TokenQuota(f, p1, q1) <= TokenQuota(f, p2, q2)
  {
    assert IntOrder(f, p1, p2) && IntOrder(f, q1, q2);
    RoundedQuotaKeepsOrder(f, f.fromInt(p1) + f.fromInt(q1), f.fromInt(p2) + f.fromInt(q2));
  }

  lemma ScaledKeepsOrder(f: Arithmetic, q1: int, q2: int, modelRatio: real)
    requires KeepsOrder(f) && q1 <= q2 && modelRatio >= 0.0
    ensures ScaledQuota(f, q1, modelRatio) <= ScaledQuota(f, q2, modelRatio) <= MAX_QUOTA
    ensures modelRatio > 0.0 ==> 1 <= ScaledQuota(f, q1, modelRatio)
  {
    assert IntOrder(f, q1, q2);
    Scale(f.fromInt(q1), f.fromInt(q2), modelRatio);
    RoundedQuotaKeepsOrder(f, Times(f.fromInt(q1), modelRatio), Times(f.fromInt(q2), modelRatio));
  }

  /** More tokens never cost less, and with a positive model ratio every test costs between 1 and MaxQuota. */
  lemma SettleIsMonotone(f: Arithmetic, p1: int, p2: int, c1: int, c2: int, completionRatio: real, modelRatio: real)
    requires KeepsOrder(f) && p1 <= p2 && c1 <= c2 && completionRatio >= 0.0 && modelRatio >= 0.0
    ensures Settle(f, p1, c1, completionRatio, modelRatio)
            <= Settle(f, p2, c2, completionRatio, modelRatio) <= MAX_QUOTA
    ensures modelRatio > 0.0 ==> 1 <= Settle(f, p1, c1, completionRatio, modelRatio)
  {
    CompletionKeepsOrder(f, c1, c2, completionRatio);
    var q1, q2 := CompletionQuota(f, c1, completionRatio), CompletionQuota(f, c2, completionRatio);
    TokensKeepOrder(f, p1, p2, q1, q2);
    ScaledKeepsOrder(f, TokenQuota(f, p1, q1), TokenQuota(f, p2, q2), modelRatio);
  }

  // ---- the wallet

  /** A conversion of rounded decimals to floats: it keeps order and is exact up to 2^53. */
  ghost predicate Faithful(float: int -> Float) {
    && (forall m: int, n: int :: m <= n ==> Le(float(m), float(n)))
    && (forall n: int :: -(MAX_WALLET_QUOTA + 1) <= n <= MAX_WALLET_QUOTA + 1 ==> float(n) == Finite(n as real))
  }

  /** `WalletQuotaFromDecimalStrict` after the decimal is rounded to an integer. */
  function WalletQuota(float: int -> Float, rounded: int): Option<int> {
    Strict(Saturate(float(rounded), MAX_WALLET_QUOTA, -MAX_WALLET_QUOTA))
  }

  /** The wallet conversion returns the rounded value itself within ±(2^53 - 1), and fails on everything else. */
  lemma WalletIsExact(float: int -> Float, rounded: int)
    requires Faithful(float)
    ensures WalletQuota(float, rounded) ==
            if -MAX_WALLET_QUOTA <= rounded <= MAX_WALLET_QUOTA then Some(rounded) else None
  {
    TruncatedInteger(rounded);
    var over := MAX_WALLET_QUOTA + 1;
    assert float(over) == Finite(over as real) && float(-over) == Finite(-over as real);
    assert rounded >= over ==> Le(float(over), float(rounded));
    assert rounded <= -over ==> Le(float(rounded), float(-over));
    StrictExactly(float(rounded), MAX_WALLET_QUOTA, -MAX_WALLET_QUOTA);
  }
}
