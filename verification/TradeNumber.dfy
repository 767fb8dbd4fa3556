/**
 Order identifiers and Alipay trade numbers: a UUID in its text form (section 4 of RFC 9562) against
 "D2S" followed by its 32 digits.  A character stands for one byte.
 */
module TradeNumber {
  import opened Wrappers

  const PREFIX := "D2S"

  type nibble = x: int | 0 <= x < 16

  /** A UUID, as its 32 hexadecimal digits. */
  type Uuid = u: seq<nibble> | |u| == 32 witness seq(32, _ => 0)

  function HexChar(n: nibble): (c: char)
    ensures LowerHex(c) && HexValue(c) == Some(n)
  {
    "0123456789abcdef"[n]
  }

  predicate LowerHex(c: char) { '0' <= c <= '9' || 'a' <= c <= 'f' }

  /** The value of a digit of either case. */
  function HexValue(c: char): (r: Option<nibble>)
    ensures LowerHex(c) ==> r.Some? && HexChars()[r.value] == c
  {
    if '0' <= c <= '9' then Some(c as int - '0' as int)
    else if 'a' <= c <= 'f' then Some(c as int - 'a' as int + 10)
    else if 'A' <= c <= 'F' then Some(c as int - 'A' as int + 10)
    else None
  }

  function HexChars(): (s: string)
    ensures |s| == 16
  {
    "0123456789abcdef"
  }

  function HexValues(s: string): (r: Option<seq<nibble>>)
    ensures r.Some? ==> |r.value| == |s|
  {
    if s == "" then Some([])
    else
      var rest, last := HexValues(s[..|s| - 1]), HexValue(s[|s| - 1]);
      if rest.Some? && last.Some? then Some(rest.value + [last.value]) else None
  }

  function Hex(ns: seq<nibble>): (s: string)
    ensures |s| == |ns|
    ensures forall c :: c in s ==> LowerHex(c)
  {
    if ns == [] then "" else Hex(ns[..|ns| - 1]) + [HexChar(ns[|ns| - 1])]
  }

  lemma ValueOfHexChar(n: nibble)
    ensures HexValue(HexChar(n)) == Some(n)
  {
  }

  lemma ValuesOfSnoc(s: string, c: char, ns: seq<nibble>, n: nibble)
    requires HexValues(s) == Some(ns) && HexValue(c) == Some(n)
    ensures HexValues(s + [c]) == Some(ns + [n])
  {
    assert (s + [c])[..|s|] == s && (s + [c])[|s|] == c;
  }

  lemma {:induction false} ValuesOfHex(ns: seq<nibble>)
    ensures HexValues(Hex(ns)) == Some(ns)
  {
    if ns == [] {
      assert Hex(ns) == "" && HexValues("") == Some([]);
    } else {
      var front, last := ns[..|ns| - 1], ns[|ns| - 1];
      ValuesOfHex(front);
      ValueOfHexChar(last);
      ValuesOfSnoc(Hex(front), HexChar(last), front, last);
      assert Hex(ns) == Hex(front) + [HexChar(last)];
      assert front + [last] == ns;
    }
  }

  lemma {:induction false} HexOfValues(s: string)
    requires forall c :: c in s ==> LowerHex(c)
    ensures HexValues(s).Some? && Hex(HexValues(s).value) == s
  {
    if s != "" {
      var front := s[..|s| - 1];
      HexOfValues(front);
      assert s[|s| - 1] in s;
      var v := HexValues(s).value;
      assert v[..|v| - 1] == HexValues(front).value;
      assert front + [s[|s| - 1]] == s;
    }
  }

  // ---- the text form

  /** 32 digits with dashes after the 8th, 12th, 16th and 20th. */
  function Dashed(h: string): (s: string)
    requires |h| == 32
    ensures |s| == 36 && DashesInPlace(s) && Undashed(s) == h
  {
    var s := h[..8] + "-" + h[8..12] + "-" + h[12..16] + "-" + h[16..20] + "-" + h[20..];
    assert s[..8] == h[..8] && s[9..13] == h[8..12] && s[14..18] == h[12..16] && s[19..23] == h[16..20]
      && s[24..] == h[20..];
    s
  }

  predicate DashesInPlace(s: string)
    requires |s| >= 36
  {
    s[8] == '-' && s[13] == '-' && s[18] == '-' && s[23] == '-'
  }

  /** The 32 characters at the digit positions. */
  function Undashed(s: string): (h: string)
    requires |s| == 36
    ensures |h| == 32
    ensures DashesInPlace(s) ==> h[..8] + "-" + h[8..12] + "-" + h[12..16] + "-" + h[16..20] + "-" + h[20..] == s
  {
    var h := s[..8] + s[9..13] + s[14..18] + s[19..23] + s[24..];
    assert h[..8] == s[..8] && h[8..12] == s[9..13] && h[12..16] == s[14..18] && h[16..20] == s[19..23]
      && h[20..] == s[24..];
    h
  }

  function Format(u: Uuid): string { Dashed(Hex(u)) }

  function AsciiLower(c: char): char { if 'A' <= c <= 'Z' then (c as int + 32) as char else c }

  predicate UrnPrefix(s: string) {
    |s| >= 9 && forall i :: 0 <= i < 9 ==> AsciiLower(s[i]) == "urn:uuid:"[i]
  }

  function ParseDashed(s: string): Option<Uuid>
    requires |s| == 36
  {
    if !DashesInPlace(s) then None else HexValues(Undashed(s))
  }

  /** `uuid.Parse`: the plain, URN, braced and undashed forms, told apart by length. */
  function Parse(s: string): Option<Uuid> {
    if |s| == 36 then ParseDashed(s)
    else if |s| == 45 then if UrnPrefix(s) then ParseDashed(s[9..]) else None
    else if |s| == 38 then ParseDashed(s[1..37])
    else if |s| == 32 then HexValues(s)
    else None
  }

  /** `strings.ReplaceAll(s, "-", "")`. */
  function WithoutDashes(s: string): string {
    if s == "" then "" else WithoutDashes(s[..|s| - 1]) + if s[|s| - 1] == '-' then "" else [s[|s| - 1]]
  }

  lemma {:induction false} WithoutDashesAppend(a: string, b: string)
    ensures WithoutDashes(a + b) == WithoutDashes(a) + WithoutDashes(b)
    decreases |b|
  {
    if b == "" {
      assert a + b == a;
    } else {
      assert (a + b)[..|a + b| - 1] == a + b[..|b| - 1];
      WithoutDashesAppend(a, b[..|b| - 1]);
    }
  }

  lemma {:induction false} NoDashes(s: string)
    requires '-' !in s
    ensures WithoutDashes(s) == s
  {
    if s != "" {
      NoDashes(s[..|s| - 1]);
      assert s[..|s| - 1] + [s[|s| - 1]] == s;
    }
  }

  lemma JustDash(a: string)
    ensures WithoutDashes(a + "-") == WithoutDashes(a)
  {
    assert (a + "-")[..|a|] == a;
  }

  lemma OneDash(a: string, b: string)
    requires '-' !in b
    ensures WithoutDashes(a + "-" + b) == WithoutDashes(a) + b
  {
    WithoutDashesAppend(a + "-", b);
    JustDash(a);
    NoDashes(b);
  }

  lemma DashesRemoved(h: string)
    requires |h| == 32 && '-' !in h
    ensures WithoutDashes(Dashed(h)) == h
  {
    NoDashes(h[..8]);
    OneDash(h[..8], h[8..12]);
    OneDash(h[..8] + "-" + h[8..12], h[12..16]);
    OneDash(h[..8] + "-" + h[8..12] + "-" + h[12..16], h[16..20]);
    OneDash(h[..8] + "-" + h[8..12] + "-" + h[12..16] + "-" + h[16..20], h[20..]);
    assert h[..8] + h[8..12] + h[12..16] + h[16..20] + h[20..] == h;
  }

  // ---- the two conversions

  function OutTradeNo(orderID: string): Option<string> {
    var parsed := Parse(orderID);
    if parsed.None? || Format(parsed.value) != orderID then None else Some(PREFIX + WithoutDashes(orderID))
  }

  function OrderID(outTradeNo: string): Option<string> {
    if |outTradeNo| != |PREFIX| + 32 || !(PREFIX <= outTradeNo) then None
    else
      var parsed := Parse(outTradeNo[|PREFIX|..]);
      if parsed.None? || PREFIX + WithoutDashes(Format(parsed.value)) != outTradeNo then None
      else Some(Format(parsed.value))
  }

  /** A canonical identifier: 36 characters, dashes in place, lower-case digits everywhere else. */
  predicate Canonical(id: string) {
    |id| == 36 && DashesInPlace(id) && forall c :: c in Undashed(id) ==> LowerHex(c)
  }

  /** A trade number: the prefix and 32 lower-case digits. */
  predicate WellFormed(no: string) {
    |no| == 35 && PREFIX <= no && forall c :: c in no[3..] ==> LowerHex(c)
  }

  lemma HexHasNoDash(s: string)
    requires forall c :: c in s ==> LowerHex(c)
    ensures '-' !in s
  {
    assert !LowerHex('-');
  }

  lemma FormatIsCanonical(u: Uuid)
    ensures Canonical(Format(u)) && Parse(Format(u)) == Some(u) && WithoutDashes(Format(u)) == Hex(u)
  {
    ValuesOfHex(u);
    HexHasNoDash(Hex(u));
    DashesRemoved(Hex(u));
  }

  lemma CanonicalParses(id: string)
    requires Canonical(id)
    ensures Parse(id).Some? && Format(Parse(id).value) == id && Hex(Parse(id).value) == Undashed(id)
  {
    HexOfValues(Undashed(id));
  }

  /** Exactly the canonical identifiers have a trade number, and it is well-formed. */
  lemma OutTradeNoDomain(id: string)
    ensures OutTradeNo(id).Some? <==> Canonical(id)
    ensures Canonical(id) ==> OutTradeNo(id) == Some(PREFIX + Undashed(id)) && WellFormed(PREFIX + Undashed(id))
  {
    if Canonical(id) {
      CanonicalParses(id);
      FormatIsCanonical(Parse(id).value);
      assert (PREFIX + Undashed(id))[3..] == Undashed(id);
    } else if Parse(id).Some? {
      FormatIsCanonical(Parse(id).value);
    }
  }

  /** Exactly the well-formed trade numbers have an order identifier, and it is canonical. */
  lemma OrderIDDomain(no: string)
    ensures OrderID(no).Some? <==> WellFormed(no)
    ensures WellFormed(no) ==> OrderID(no) == Some(Dashed(no[3..])) && Canonical(Dashed(no[3..]))
  {
    if WellFormed(no) {
      HexOfValues(no[3..]);
      var u: Uuid := HexValues(no[3..]).value;
      FormatIsCanonical(u);
      assert PREFIX + no[3..] == no;
    } else if |no| == 35 && PREFIX <= no && Parse(no[3..]).Some? {
      var u := Parse(no[3..]).value;
      FormatIsCanonical(u);
      assert (PREFIX + Hex(u))[3..] == Hex(u);
    }
  }

  /** Encoding, then decoding, gives the identifier back. */
  lemma DecodeEncode(id: string)
    ensures OutTradeNo(id).Some? ==> OrderID(OutTradeNo(id).value) == Some(id)
  {
    OutTradeNoDomain(id);
    if Canonical(id) {
      var no := PREFIX + Undashed(id);
      OrderIDDomain(no);
      assert no[3..] == Undashed(id);
    }
  }

  /** Decoding, then encoding, gives the trade number back. */
  lemma EncodeDecode(no: string)
    ensures OrderID(no).Some? ==> OutTradeNo(OrderID(no).value) == Some(no)
  {
    OrderIDDomain(no);
    if WellFormed(no) {
      OutTradeNoDomain(Dashed(no[3..]));
      assert PREFIX + no[3..] == no;
    }
  }
}
