/**
 The text that holds the keys of a multi-key channel: a JSON array, or one key on each line.
 The JSON decoder is a parameter.
 */
module KeyText {
  import opened Wrappers
  import opened GoText

  type Json = string -> Option<seq<string>>

  predicate StartsArray(text: string) { "[" <= TrimSpaceLeft(text) }

  /** `GetKeys`. */
  function GetKeys(json: Json, text: string): seq<string> {
    if text == "" then []
    else if StartsArray(text) && json(text).Some? then json(text).value
    else Split(TrimChar(text, '\n'), '\n')
  }

  /** The number of keys that `Update` computes: an empty array counts as a line of text. */
  function CountKeys(json: Json, text: string): nat {
    if text == "" then 0
    else if StartsArray(text) && json(text).Some? && json(text).value != [] then |json(text).value|
    else |Split(TrimChar(text, '\n'), '\n')|
  }

  lemma CountIsLength(json: Json, text: string)
    ensures GetKeys(json, text) != [] || text == "" ==> CountKeys(json, text) == |GetKeys(json, text)|
  {
  }

  lemma {:induction false} SpacesTrimmed(spaces: string, s: string)
    requires AllSpace(spaces)
    ensures TrimSpaceLeft(spaces + s) == TrimSpaceLeft(s)
  {
    if spaces == "" {
      assert spaces + s == s;
    } else {
      assert (spaces + s)[1..] == spaces[1..] + s;
      SpacesTrimmed(spaces[1..], s);
    }
  }

  /** A text whose first character after spaces is a bracket holds the keys of the array, if it decodes; any other text
      holds one key on each line. */
  lemma KeysOfText(json: Json, spaces: string, c: char, rest: string)
    requires AllSpace(spaces) && !IsSpace(c)
    ensures var text := spaces + [c] + rest;
      GetKeys(json, text) == if c == '[' && json(text).Some? then json(text).value
                             else Split(TrimChar(text, '\n'), '\n')
  {
    SpacesTrimmed(spaces, [c] + rest);
    assert spaces + [c] + rest == spaces + ([c] + rest);
    assert TrimSpaceLeft([c] + rest) == [c] + rest;
    assert "["[0] == '[';
  }

  // ---- which key lists read back

  /** A non-empty list without line breaks whose first and last keys are not empty. */
  predicate Storable(keys: seq<string>) {
    keys != [] && keys[0] != "" && keys[|keys| - 1] != "" && forall k :: k in keys ==> '\n' !in k
  }

  lemma {:induction false} JoinEnds(keys: seq<string>, sep: char)
    requires keys != [] && keys[|keys| - 1] != ""
    ensures var t := Join(keys, sep); var last := keys[|keys| - 1]; t != "" && t[|t| - 1] == last[|last| - 1]
  {
    if |keys| > 1 {
      assert keys[1..][|keys| - 2] == keys[|keys| - 1];
      JoinEnds(keys[1..], sep);
    }
  }

  lemma JoinStarts(keys: seq<string>, sep: char)
    requires keys != [] && keys[0] != ""
    ensures Join(keys, sep) != "" && Join(keys, sep)[0] == keys[0][0]
  {
  }

  lemma {:induction false} TrimShortens(s: string, sep: char)
    ensures |Split(TrimCharLeft(s, sep), sep)| <= |Split(s, sep)|
    ensures s != "" && s[0] == sep ==> |Split(TrimCharLeft(s, sep), sep)| < |Split(s, sep)|
  {
    if s != "" && s[0] == sep { TrimShortens(s[1..], sep); }
  }

  lemma {:induction false} TrimShortensRight(s: string, sep: char)
    ensures |Split(TrimCharRight(s, sep), sep)| <= |Split(s, sep)|
    ensures s != "" && s[|s| - 1] == sep ==> |Split(TrimCharRight(s, sep), sep)| < |Split(s, sep)|
  {
    if s != "" && s[|s| - 1] == sep {
      var t := s[..|s| - 1];
      assert s == t + [sep] + "";
      SplitAppend(t, sep, "");
      TrimShortensRight(t, sep);
    }
  }

  lemma {:induction false} JoinLastEmpty(keys: seq<string>, sep: char)
    requires |keys| > 1 && keys[|keys| - 1] == ""
    ensures var t := Join(keys, sep); t != "" && t[|t| - 1] == sep
  {
    if |keys| > 2 {
      assert keys[1..][|keys| - 2] == keys[|keys| - 1];
      JoinLastEmpty(keys[1..], sep);
    } else {
      assert keys[1..] == [keys[1]];
    }
  }

  /** A text that starts or ends with a separator loses parts when it is trimmed. */
  lemma TrimLosesParts(s: string, sep: char)
    requires s != "" && (s[0] == sep || s[|s| - 1] == sep)
    ensures |Split(TrimChar(s, sep), sep)| < |Split(s, sep)|
  {
    var left := TrimCharLeft(s, sep);
    if s[0] == sep { TrimShortens(s, sep); } else { assert left == s; }
    TrimShortensRight(left, sep);
  }

  /** What the keys read back as, once stored. */
  ghost predicate ReadsBack(json: Json, keys: seq<string>) {
    Join(keys, '\n') != "" && GetKeys(json, Join(keys, '\n')) == keys
  }

  /** Keys stored as lines of text read back exactly when they are storable. */
  lemma LinesReadBack(json: Json, keys: seq<string>)
    requires !StartsArray(Join(keys, '\n'))
    ensures ReadsBack(json, keys) <==> Storable(keys)
  {
    var text := Join(keys, '\n');
    if Storable(keys) {
      JoinStarts(keys, '\n');
      JoinEnds(keys, '\n');
      assert keys[0] in keys && keys[|keys| - 1] in keys;
      assert TrimChar(text, '\n') == text;
      SplitJoin(keys, '\n');
      SplitEachPlain(keys, '\n');
    } else if keys != [] && text != "" && GetKeys(json, text) == keys {
      ReadBackIsStorable(keys);
    }
  }

  lemma ReadBackIsStorable(keys: seq<string>)
    requires Split(TrimChar(Join(keys, '\n'), '\n'), '\n') == keys && Join(keys, '\n') != ""
    ensures Storable(keys)
  {
    var text := Join(keys, '\n');
    SplitJoin(keys, '\n');
    SplitEachPlain(keys, '\n');
    if text[0] == '\n' || text[|text| - 1] == '\n' {
      TrimLosesParts(text, '\n');
      assert false;
    }
    if keys[|keys| - 1] == "" && |keys| > 1 { JoinLastEmpty(keys, '\n'); }
  }

  /** A key as it is usually written: a non-empty line that does not look like a JSON array. */
  predicate Plain(key: string) { key != "" && '\n' !in key && !StartsArray(key) }

  lemma {:induction false} ArrayStartsInPart(a: string, b: string)
    requires StartsArray(a + ['\n'] + b)
    ensures StartsArray(a) || StartsArray(b)
  {
    if a == "" {
      assert (a + ['\n'] + b)[1..] == b;
    } else if IsSpace(a[0]) {
      assert (a + ['\n'] + b)[1..] == a[1..] + ['\n'] + b;
      ArrayStartsInPart(a[1..], b);
    }
  }

  lemma {:induction false} PlainIsNoArray(keys: seq<string>)
    requires forall k :: k in keys ==> Plain(k)
    ensures !StartsArray(Join(keys, '\n'))
  {
    if |keys| == 1 {
      assert keys[0] in keys;
    } else if |keys| > 1 {
      assert keys[0] in keys;
      PlainIsNoArray(keys[1..]);
      if StartsArray(Join(keys, '\n')) { ArrayStartsInPart(keys[0], Join(keys[1..], '\n')); }
    }
  }

  /** Plain keys always read back. */
  lemma PlainReadsBack(json: Json, keys: seq<string>)
    requires keys != [] && forall k :: k in keys ==> Plain(k)
    ensures ReadsBack(json, keys)
  {
    PlainIsNoArray(keys);
    assert keys[0] in keys && keys[|keys| - 1] in keys;
    assert Storable(keys);
    LinesReadBack(json, keys);
  }

  lemma BreakIsTrimmed(b: string)
    requires b != "" && '\n' !in b
    ensures TrimChar(['\n'] + b, '\n') == b
  {
    assert (['\n'] + b)[1..] == b && b[0] in b && b[|b| - 1] in b;
    assert TrimCharLeft(['\n'] + b, '\n') == TrimCharLeft(b, '\n') == b;
  }

  lemma BreakIsSpace(b: string)
    ensures StartsArray(['\n'] + b) <==> StartsArray(b)
  {
    assert (['\n'] + b)[1..] == b && IsSpace('\n');
    assert TrimSpaceLeft(['\n'] + b) == TrimSpaceLeft(b);
  }

  lemma LeadingBreak(json: Json, b: string)
    requires Plain(b)
    ensures GetKeys(json, ['\n'] + b) == [b]
  {
    BreakIsTrimmed(b);
    BreakIsSpace(b);
  }

  lemma Joined(a: string, b: string)
    ensures Join([a], '\n') == a && Join([a, b], '\n') == a + ['\n'] + b
  {
    assert [a, b][1..] == [b];
  }

  /** Two plain lines with an empty one between them read back as three keys. */
  lemma EmptyKeyStored(json: Json, a: string, b: string)
    requires Plain(a) && Plain(b)
    ensures GetKeys(json, Join([a, "", b], '\n')) == [a, "", b]
  {
    var text := Join([a, "", b], '\n');
    assert [a, "", b][1..] == ["", b];
    Joined("", b);
    assert "" + ['\n'] + b == ['\n'] + b && text == a + ['\n'] + (['\n'] + b);
    if StartsArray(text) {
      ArrayStartsInPart(a, ['\n'] + b);
      BreakIsSpace(b);
    }
    LinesReadBack(json, [a, "", b]);
  }
}
