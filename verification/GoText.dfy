/**
 The string functions of Go's standard library that the models below rely on.  A string is a sequence
 of characters; where the source works on bytes, a character stands for one byte.
 */
module GoText {

  /** `unicode.IsSpace`. */
  predicate IsSpace(c: char) {
    || '\t' <= c <= '\r' || c == ' ' || c == '\U{85}' || c == '\U{A0}' || c == '\U{1680}'
    || '\U{2000}' <= c <= '\U{200A}' || c == '\U{2028}' || c == '\U{2029}' || c == '\U{202F}'
    || c == '\U{205F}' || c == '\U{3000}'
  }

  function TrimSpaceLeft(s: string): (r: string)
    ensures r != "" ==> !IsSpace(r[0])
    ensures r == s || (s != "" && IsSpace(s[0]))
  {
    if s != "" && IsSpace(s[0]) then TrimSpaceLeft(s[1..]) else s
  }

  function TrimSpaceRight(s: string): (r: string)
    ensures r != "" ==> !IsSpace(r[|r| - 1])
    ensures r == s || (s != "" && IsSpace(s[|s| - 1]))
  {
    if s != "" && IsSpace(s[|s| - 1]) then TrimSpaceRight(s[..|s| - 1]) else s
  }

  lemma {:induction false} RightKeepsFirst(s: string)
    ensures TrimSpaceRight(s) != "" ==> s != "" && TrimSpaceRight(s)[0] == s[0]
  {
    if s != "" && IsSpace(s[|s| - 1]) { RightKeepsFirst(s[..|s| - 1]); }
  }

  lemma {:induction false} LeftKeepsAbsent(s: string, c: char)
    requires c !in s
    ensures c !in TrimSpaceLeft(s)
  {
    if s != "" && IsSpace(s[0]) { LeftKeepsAbsent(s[1..], c); }
  }

  lemma {:induction false} RightKeepsAbsent(s: string, c: char)
    requires c !in s
    ensures c !in TrimSpaceRight(s)
  {
    if s != "" && IsSpace(s[|s| - 1]) { RightKeepsAbsent(s[..|s| - 1], c); }
  }

  predicate Trimmed(s: string) {
    s != "" ==> !IsSpace(s[0]) && !IsSpace(s[|s| - 1])
  }

  /** `strings.TrimSpace`: what is left neither starts nor ends with a space. */
  function TrimSpace(s: string): (r: string)
    ensures Trimmed(r)
    ensures Trimmed(s) ==> r == s
  {
    RightKeepsFirst(TrimSpaceLeft(s));
    TrimSpaceRight(TrimSpaceLeft(s))
  }

  ghost predicate AllSpace(s: string) { forall i :: 0 <= i < |s| ==> IsSpace(s[i]) }

  lemma {:induction false} LeftIsSuffix(s: string) returns (n: nat)
    ensures n <= |s| && AllSpace(s[..n]) && TrimSpaceLeft(s) == s[n..]
  {
    n := 0;
    if s != "" && IsSpace(s[0]) {
      var m := LeftIsSuffix(s[1..]);
      n := m + 1;
      assert s[..n] == [s[0]] + s[1..][..m] && s[n..] == s[1..][m..];
    }
  }

  lemma {:induction false} RightIsPrefix(s: string) returns (n: nat)
    ensures n <= |s| && AllSpace(s[n..]) && TrimSpaceRight(s) == s[..n]
  {
    n := |s|;
    if s != "" && IsSpace(s[|s| - 1]) {
      var front := s[..|s| - 1];
      n := RightIsPrefix(front);
      assert s[n..] == front[n..] + [s[|s| - 1]] && s[..n] == front[..n];
    }
  }

  lemma Halves(s: string, i: nat)
    requires i <= |s|
    ensures s == s[..i] + s[i..]
  {
  }

  /** Trimming takes a run of spaces off each end, and nothing else. */
  lemma TrimSpaceIsMiddle(s: string) returns (left: string, right: string)
    ensures s == left + TrimSpace(s) + right && AllSpace(left) && AllSpace(right)
  {
    var i := LeftIsSuffix(s);
    var rest := s[i..];
    var j := RightIsPrefix(rest);
    left, right := s[..i], rest[j..];
    Halves(s, i);
    Halves(rest, j);
    assert left + (rest[..j] + right) == left + rest[..j] + right;
  }

  lemma TrimKeepsAbsent(s: string, c: char)
    requires c !in s
    ensures c !in TrimSpace(s)
  {
    LeftKeepsAbsent(s, c);
    RightKeepsAbsent(TrimSpaceLeft(s), c);
  }

  function Prepend(c: char, sep: char, parts: seq<string>): seq<string>
    requires parts != []
  {
    if c == sep then [""] + parts else [[c] + parts[0]] + parts[1..]
  }

  /** `strings.Split` on one character; the result is never empty. */
  function Split(s: string, sep: char): (parts: seq<string>)
    ensures |parts| > 0
    ensures forall p :: p in parts ==> sep !in p
    ensures sep !in s ==> parts == [s]
  {
    if s == "" then [""]
    else
      var rest := Split(s[1..], sep);
      assert [s[0]] + s[1..] == s;
      Prepend(s[0], sep, rest)
  }

  /** `strings.Join` on one character. */
  function Join(parts: seq<string>, sep: char): string {
    if parts == [] then "" else if |parts| == 1 then parts[0] else parts[0] + [sep] + Join(parts[1..], sep)
  }

  /** `strings.Trim` on one character, one side at a time. */
  function TrimCharLeft(s: string, c: char): string {
    if s != "" && s[0] == c then TrimCharLeft(s[1..], c) else s
  }

  function TrimCharRight(s: string, c: char): string {
    if s != "" && s[|s| - 1] == c then TrimCharRight(s[..|s| - 1], c) else s
  }

  function TrimChar(s: string, c: char): string { TrimCharRight(TrimCharLeft(s, c), c) }

  lemma PrependAppend(c: char, sep: char, l: seq<string>, r: seq<string>)
    requires l != []
    ensures Prepend(c, sep, l + r) == Prepend(c, sep, l) + r
  {
  }

  /** Splitting distributes over a separator in the middle. */
  lemma {:induction false} SplitAppend(a: string, sep: char, b: string)
    ensures Split(a + [sep] + b, sep) == Split(a, sep) + Split(b, sep)
  {
    if a == "" {
      assert ("" + [sep] + b)[1..] == b;
    } else {
      assert (a + [sep] + b)[1..] == a[1..] + [sep] + b;
      SplitAppend(a[1..], sep, b);
      PrependAppend(a[0], sep, Split(a[1..], sep), Split(b, sep));
    }
  }

  function SplitEach(parts: seq<string>, sep: char): seq<string> {
    if parts == [] then [] else Split(parts[0], sep) + SplitEach(parts[1..], sep)
  }

  /** What a joined list reads back as, whatever the parts contain. */
  lemma {:induction false} SplitJoin(parts: seq<string>, sep: char)
    requires parts != []
    ensures Split(Join(parts, sep), sep) == SplitEach(parts, sep)
  {
    if |parts| == 1 {
      assert parts[1..] == [];
    } else {
      SplitAppend(parts[0], sep, Join(parts[1..], sep));
      SplitJoin(parts[1..], sep);
    }
  }

  lemma {:induction false} SplitEachPlain(parts: seq<string>, sep: char)
    requires forall p :: p in parts ==> sep !in p
    ensures SplitEach(parts, sep) == parts
  {
    if parts != [] {
      assert parts[0] in parts;
      SplitEachPlain(parts[1..], sep);
      assert [parts[0]] + parts[1..] == parts;
    }
  }

  lemma {:induction false} SplitEachMember(parts: seq<string>, sep: char, x: string)
    ensures x in SplitEach(parts, sep) <==> exists i :: 0 <= i < |parts| && x in Split(parts[i], sep)
  {
    if parts != [] {
      SplitEachMember(parts[1..], sep, x);
      if i :| 0 <= i < |parts[1..]| && x in Split(parts[1..][i], sep) {
        assert parts[i + 1] == parts[1..][i];
      }
      if i :| 0 <= i < |parts| && x in Split(parts[i], sep) {
        if i > 0 { assert parts[i] == parts[1..][i - 1]; }
      }
    }
  }

  /** Trimming separators off the ends drops only empty parts. */
  lemma {:induction false} SplitTrimLeft(s: string, sep: char)
    ensures forall p :: p != "" ==> (p in Split(TrimCharLeft(s, sep), sep) <==> p in Split(s, sep))
  {
    if s != "" && s[0] == sep {
      SplitTrimLeft(s[1..], sep);
    }
  }

  lemma {:induction false} SplitTrimRight(s: string, sep: char)
    ensures forall p :: p != "" ==> (p in Split(TrimCharRight(s, sep), sep) <==> p in Split(s, sep))
  {
    if s != "" && s[|s| - 1] == sep {
      var t := s[..|s| - 1];
      assert s == t + [sep] + "";
      SplitAppend(t, sep, "");
      SplitTrimRight(t, sep);
    }
  }

  lemma SplitTrim(s: string, sep: char)
    ensures forall p :: p != "" ==> (p in Split(TrimChar(s, sep), sep) <==> p in Split(s, sep))
  {
    SplitTrimLeft(s, sep);
    SplitTrimRight(TrimCharLeft(s, sep), sep);
  }
}
