/**
 The text that a payment message is signed and verified over: the fields that count, sorted by name,
 written as `name=value` and joined by '&'.
 */
module CanonicalString {
  import opened Wrappers
  import opened GoText
  import opened Sequences

  const SIGN := "sign"
  const SIGN_TYPE := "sign_type"

  // ---- the order of sort.Strings

  predicate Less(a: string, b: string) {
    b != "" && (a == "" || a[0] < b[0] || (a[0] == b[0] && Less(a[1..], b[1..])))
  }

  lemma {:induction false} LessIsStrict(a: string, b: string)
    ensures !(Less(a, b) && Less(b, a)) && !Less(a, a)
  {
    if a != "" { LessIsStrict(a[1..], if b == "" then "" else b[1..]); }
  }

  lemma {:induction false} LessIsTotal(a: string, b: string)
    ensures Less(a, b) || Less(b, a) || a == b
  {
    if a != "" && b != "" && a[0] == b[0] {
      LessIsTotal(a[1..], b[1..]);
      assert a == [a[0]] + a[1..] && b == [b[0]] + b[1..];
    }
  }

  lemma {:induction false} LessIsTransitive(a: string, b: string, c: string)
    requires Less(a, b) && Less(b, c)
    ensures Less(a, c)
  {
    if a != "" && a[0] == b[0] == c[0] { LessIsTransitive(a[1..], b[1..], c[1..]); }
  }

  /** The first difference decides: at some place the strings part, and there one ends or has the smaller character. */
  lemma {:induction false} FirstDifferenceDecides(a: string, b: string)
    ensures Less(a, b) <==> exists n: nat :: PartsAt(a, b, n)
  {
    if b == "" {
      assert forall n: nat :: !PartsAt(a, b, n);
    } else if a == "" || a[0] != b[0] {
      assert forall n: nat :: PartsAt(a, b, n) ==> n == 0 by {
        assert forall n: nat :: n > 0 && PartsAt(a, b, n) ==> a[..n][0] == b[..n][0];
      }
      assert PartsAt(a, b, 0) <==> a == "" || a[0] < b[0];
    } else {
      FirstDifferenceDecides(a[1..], b[1..]);
      assert !PartsAt(a, b, 0);
      if n: nat :| PartsAt(a, b, n) { PartsLater(a, b, n - 1); }
      if n: nat :| PartsAt(a[1..], b[1..], n) { PartsLater(a, b, n); }
    }
  }

  predicate PartsAt(a: string, b: string, n: nat) {
    n <= |a| && n < |b| && a[..n] == b[..n] && (n == |a| || a[n] < b[n])
  }

  lemma PartsLater(a: string, b: string, n: nat)
    requires a != "" && b != "" && a[0] == b[0]
    ensures PartsAt(a, b, n + 1) <==> PartsAt(a[1..], b[1..], n)
  {
    if n + 1 <= |a| && n + 1 <= |b| {
      assert a[..n + 1] == [a[0]] + a[1..][..n] && b[..n + 1] == [b[0]] + b[1..][..n];
      assert a[1..][..n] == a[..n + 1][1..] && b[1..][..n] == b[..n + 1][1..];
    }
  }

  // ---- sorting names that differ

  ghost predicate Precedes(k: string, keys: seq<string>) { forall x :: x in keys ==> Less(k, x) }

  ghost predicate Sorted(keys: seq<string>) {
    keys == [] || (Precedes(keys[0], keys[1..]) && Sorted(keys[1..]))
  }

  lemma ElemsEmpty(keys: seq<string>)
    ensures keys == [] <==> Elems(keys) == {}
  {
    if keys != [] { assert keys[0] in Elems(keys); }
  }

  lemma ElemsOfCons(k: string, keys: seq<string>)
    ensures Elems([k] + keys) == Elems(keys) + {k}
  {
  }

  lemma ElemsOfRest(keys: seq<string>)
    requires keys != [] && keys[0] !in keys[1..]
    ensures Elems(keys[1..]) == Elems(keys) - {keys[0]}
  {
    assert keys == [keys[0]] + keys[1..];
  }

  lemma SortedHeads(a: seq<string>, b: seq<string>)
    requires a != [] && b != [] && Sorted(a) && Sorted(b) && Elems(a) == Elems(b)
    ensures a[0] == b[0]
  {
    assert a[0] in Elems(b) && b[0] in Elems(a);
    assert a == [a[0]] + a[1..] && b == [b[0]] + b[1..];
    LessIsStrict(a[0], b[0]);
  }

  /** There is one way to sort a set of names. */
  lemma {:induction false} SortedIsUnique(a: seq<string>, b: seq<string>)
    requires Sorted(a) && Sorted(b) && Elems(a) == Elems(b)
    ensures a == b
  {
    if a == [] {
      ElemsEmpty(a);
      ElemsEmpty(b);
    } else {
      ElemsEmpty(a);
      ElemsEmpty(b);
      SortedHeads(a, b);
      LessIsStrict(a[0], a[0]);
      ElemsOfRest(a);
      ElemsOfRest(b);
      SortedIsUnique(a[1..], b[1..]);
      assert a == [a[0]] + a[1..] && b == [b[0]] + b[1..];
    }
  }

  function Insert(k: string, keys: seq<string>): (r: seq<string>)
    ensures multiset(r) == multiset(keys) + multiset{k}
  {
    if keys == [] || Less(k, keys[0]) then
      [k] + keys
    else
      assert keys == [keys[0]] + keys[1..];
      [keys[0]] + Insert(k, keys[1..])
  }

  lemma InsertMembers(k: string, keys: seq<string>)
    ensures Elems(Insert(k, keys)) == Elems(keys) + {k}
  {
    forall x ensures x in Insert(k, keys) <==> x in keys || x == k {
      assert x in Insert(k, keys) <==> x in multiset(Insert(k, keys));
      assert x in keys <==> x in multiset(keys);
    }
  }

  lemma {:induction false} InsertSorts(k: string, keys: seq<string>)
    requires Sorted(keys) && k !in keys
    ensures Sorted(Insert(k, keys))
  {
    if keys == [] {
      assert Insert(k, keys)[1..] == [];
    } else if Less(k, keys[0]) {
      forall x | x in keys ensures Less(k, x) {
        if x != keys[0] {
          assert x in keys[1..];
          LessIsTransitive(k, keys[0], x);
        }
      }
      assert Insert(k, keys)[1..] == keys;
    } else {
      LessIsTotal(k, keys[0]);
      InsertSorts(k, keys[1..]);
      InsertMembers(k, keys[1..]);
      assert Insert(k, keys)[1..] == Insert(k, keys[1..]);
      forall x | x in Insert(k, keys[1..]) ensures Less(keys[0], x) {
        assert x in Elems(Insert(k, keys[1..]));
      }
    }
  }

  /** `sort.Strings` on names without repetition. */
  method SortStrings(keys: seq<string>) returns (sorted: seq<string>)
    requires Distinct(keys)
    ensures Sorted(sorted) && Elems(sorted) == Elems(keys)
  {
    sorted := [];
    var i := 0;
    while i < |keys|
      invariant i <= |keys| && Sorted(sorted) && Elems(sorted) == Elems(keys[..i])
    {
      assert keys[..i + 1] == keys[..i] + [keys[i]];
      assert keys[i] !in Elems(keys[..i]);
      InsertSorts(keys[i], sorted);
      InsertMembers(keys[i], sorted);
      sorted := Insert(keys[i], sorted);
      i := i + 1;
    }
    assert keys[..i] == keys;
  }

  // ---- the canonical text

  predicate Blank(value: string) { TrimSpace(value) == "" }

  /** The names that never take part in the text. */
  function Skipped(includeSignType: bool): set<string> { if includeSignType then {SIGN} else {SIGN} + {SIGN_TYPE} }

  function Kept(values: map<string, string>, skip: set<string>): map<string, string> {
    map k | k in values && k !in skip && !Blank(values[k]) :: values[k]
  }

  ghost function Parts(keys: seq<string>, values: map<string, string>): seq<string>
    requires Elems(keys) <= values.Keys
  {
    if keys == [] then [] else
      assert forall k :: k in keys[1..] ==> k in Elems(keys);
      assert keys[0] in Elems(keys);
      [keys[0] + "=" + values[keys[0]]] + Parts(keys[1..], values)
  }

  /** `r` is the text of the fields in `kept`, for some order of their names that is sorted. */
  ghost predicate IsText(r: string, kept: map<string, string>) {
    exists keys :: Sorted(keys) && Elems(keys) == kept.Keys && r == Join(Parts(keys, kept), '&')
  }

  ghost predicate IsCanonical(r: string, values: map<string, string>, includeSignType: bool) {
    IsText(r, Kept(values, Skipped(includeSignType)))
  }

  /** The fields that count fix the text: the order in which a map is walked does not matter. */
  lemma TextIsUnique(kept: map<string, string>, r: string, s: string)
    requires IsText(r, kept) && IsText(s, kept)
    ensures r == s
  {
    var a :| Sorted(a) && Elems(a) == kept.Keys && r == Join(Parts(a, kept), '&');
    var b :| Sorted(b) && Elems(b) == kept.Keys && s == Join(Parts(b, kept), '&');
    SortedIsUnique(a, b);
  }

  lemma {:induction false} SortedAscends(keys: seq<string>, i: nat, j: nat)
    requires Sorted(keys) && i < j < |keys|
    ensures Less(keys[i], keys[j])
  {
    if i == 0 {
      assert keys[1..][j - 1] == keys[j] && keys[j] in keys[1..];
    } else {
      SortedAscends(keys[1..], i - 1, j - 1);
    }
  }

  lemma {:induction false} PartIs(keys: seq<string>, values: map<string, string>, i: nat)
    requires Elems(keys) <= values.Keys && i < |keys|
    ensures |Parts(keys, values)| == |keys| && keys[i] in values
    ensures Parts(keys, values)[i] == keys[i] + "=" + values[keys[i]]
  {
    assert keys[i] in Elems(keys) && forall k :: k in keys[1..] ==> k in Elems(keys);
    TextLength(keys, values);
    if i > 0 { PartIs(keys[1..], values, i - 1); }
  }

  /** The text spelled out: the names in ascending order of every field except the signature, on request the signature
      type, and blank fields, each with its value. */
  lemma CanonicalText(r: string, values: map<string, string>, includeSignType: bool)
    returns (keys: seq<string>, parts: seq<string>)
    requires IsCanonical(r, values, includeSignType)
    ensures forall i, j :: 0 <= i < j < |keys| ==> Less(keys[i], keys[j])
    ensures forall k :: k in keys <==>
              k in values && k != "sign" && (includeSignType || k != "sign_type") && TrimSpace(values[k]) != ""
    ensures |parts| == |keys| && forall i :: 0 <= i < |keys| ==> parts[i] == keys[i] + "=" + values[keys[i]]
    ensures r == Join(parts, '&')
  {
    var kept := Kept(values, Skipped(includeSignType));
    keys :| Sorted(keys) && Elems(keys) == kept.Keys && r == Join(Parts(keys, kept), '&');
    parts := Parts(keys, kept);
    TextLength(keys, kept);
    forall i, j | 0 <= i < j < |keys| ensures Less(keys[i], keys[j]) { SortedAscends(keys, i, j); }
    forall i | 0 <= i < |keys| ensures keys[i] in kept && parts[i] == keys[i] + "=" + kept[keys[i]] {
      PartIs(keys, kept, i);
    }
    assert forall k :: k in keys <==> k in Elems(keys);
  }

  lemma KeptOfIgnored(values: map<string, string>, skip: set<string>, key: string, value: string)
    requires key in skip || Blank(value)
    ensures Kept(values[key := value], skip) == Kept(values - {key}, skip)
  {
  }

  /** Writing a signature or a blank field is the same as removing the field. */
  lemma IgnoredFieldsDoNotMatter(values: map<string, string>, key: string, value: string, includeSignType: bool,
                                 r: string, s: string)
    requires key == SIGN || Blank(value)
    requires IsCanonical(r, values[key := value], includeSignType) && IsCanonical(s, values - {key}, includeSignType)
    ensures r == s
  {
    KeptOfIgnored(values, Skipped(includeSignType), key, value);
    TextIsUnique(Kept(values - {key}, Skipped(includeSignType)), r, s);
  }

  // ---- the two forms

  ghost function Weight(keys: seq<string>, values: map<string, string>): nat
    requires Elems(keys) <= values.Keys
  {
    if keys == [] then 0 else
      assert forall k :: k in keys[1..] ==> k in Elems(keys);
      assert keys[0] in Elems(keys);
      |keys[0]| + |values[keys[0]]| + 2 + Weight(keys[1..], values)
  }

  lemma {:induction false} TextLength(keys: seq<string>, values: map<string, string>)
    requires Elems(keys) <= values.Keys
    ensures |Parts(keys, values)| == |keys|
    ensures |Join(Parts(keys, values), '&')| == if keys == [] then 0 else Weight(keys, values) - 1
  {
    if keys != [] {
      assert forall k :: k in keys[1..] ==> k in Elems(keys);
      TextLength(keys[1..], values);
      var rest := Parts(keys[1..], values);
      assert Parts(keys, values)[1..] == rest;
    }
  }

  lemma {:induction false} Drop(keys: seq<string>, i: nat, values: map<string, string>) returns (rest: seq<string>)
    requires i < |keys| && Sorted(keys) && Elems(keys) <= values.Keys
    ensures Sorted(rest) && Elems(rest) == Elems(keys) - {keys[i]} && Weight(rest, values) < Weight(keys, values)
  {
    LessIsStrict(keys[0], keys[0]);
    ElemsOfRest(keys);
    if i == 0 {
      rest := keys[1..];
    } else {
      assert keys[i] in keys[1..];
      var tail := Drop(keys[1..], i - 1, values);
      rest := [keys[0]] + tail;
      assert rest[1..] == tail;
      ElemsOfCons(keys[0], tail);
      forall x | x in tail ensures Less(keys[0], x) {
        assert x in Elems(tail);
      }
      LessIsStrict(keys[0], keys[i]);
    }
  }

  /** Parts only look at the values of their own names. */
  lemma {:induction false} PartsAgree(keys: seq<string>, a: map<string, string>, b: map<string, string>)
    requires Elems(keys) <= a.Keys && Elems(keys) <= b.Keys
    requires forall k :: k in Elems(keys) ==> a[k] == b[k]
    ensures Parts(keys, a) == Parts(keys, b)
  {
    if keys != [] {
      assert forall k :: k in keys[1..] ==> k in Elems(keys);
      assert keys[0] in Elems(keys);
      PartsAgree(keys[1..], a, b);
    }
  }

  /** A text of more fields is longer, so it differs. */
  lemma MoreFieldsDiffer(kept: map<string, string>, key: string, r: string, s: string)
    requires key in kept && IsText(r, kept) && IsText(s, kept - {key})
    ensures |r| > |s|
  {
    var keys :| Sorted(keys) && Elems(keys) == kept.Keys && r == Join(Parts(keys, kept), '&');
    var less :| Sorted(less) && Elems(less) == (kept - {key}).Keys && s == Join(Parts(less, kept - {key}), '&');
    assert key in Elems(keys);
    var i :| 0 <= i < |keys| && keys[i] == key;
    var rest := Drop(keys, i, kept);
    assert Elems(rest) == Elems(less);
    SortedIsUnique(rest, less);
    PartsAgree(less, kept, kept - {key});
    TextLength(keys, kept);
    TextLength(less, kept);
  }

  /** Skipping one more name leaves the text the same if and only if that field is missing or blank. */
  lemma SkipOneMore(values: map<string, string>, skip: set<string>, key: string, r: string, s: string)
    requires key !in skip && IsText(r, Kept(values, skip)) && IsText(s, Kept(values, skip + {key}))
    ensures r == s <==> key !in values || Blank(values[key])
  {
    var kept := Kept(values, skip);
    assert Kept(values, skip + {key}) == kept - {key};
    if key in kept {
      MoreFieldsDiffer(kept, key, r, s);
    } else {
      assert kept - {key} == kept;
      TextIsUnique(kept, r, s);
    }
  }

  lemma SignNamesDiffer()
    ensures SIGN != SIGN_TYPE
  {
    assert |SIGN| != |SIGN_TYPE|;
  }

  /** Signing keeps the `sign_type` field and verifying drops it: the texts are the same if and only if the field is
      missing or blank. */
  lemma FormsAgreeWithoutSignType(values: map<string, string>, r: string, s: string)
    requires IsCanonical(r, values, true) && IsCanonical(s, values, false)
    ensures r == s <==> SIGN_TYPE !in values || Blank(values[SIGN_TYPE])
  {
    SignNamesDiffer();
    SkipOneMore(values, {SIGN}, SIGN_TYPE, r, s);
  }

  /** The fields compared before a response is verified. */
  function ResponseParams(key: string, content: string, sign: string): map<string, string> {
    map[key := content][SIGN_TYPE := "RSA2"][SIGN := sign]
  }

  lemma KeptOfOverwritten(values: map<string, string>, skip: set<string>, key: string, value: string)
    requires key in skip
    ensures Kept(values[key := value], skip) == Kept(values, skip)
  {
  }

  lemma KeptOfResponse(key: string, content: string, sign: string)
    ensures Kept(ResponseParams(key, content, sign), Skipped(false)) == Kept(map[key := content], Skipped(false))
  {
    var bare := map[key := content];
    KeptOfOverwritten(bare, Skipped(false), SIGN_TYPE, "RSA2");
    KeptOfOverwritten(bare[SIGN_TYPE := "RSA2"], Skipped(false), SIGN, sign);
  }

  /** The two forms of a response agree if and only if its key is not `sign_type`, or its content is blank. */
  lemma ResponseFormsAgree(key: string, content: string, sign: string, r: string, s: string)
    requires IsCanonical(r, map[key := content], true)
    requires IsCanonical(s, ResponseParams(key, content, sign), false)
    ensures r == s <==> key != SIGN_TYPE || Blank(content)
  {
    KeptOfResponse(key, content, sign);
    FormsAgreeWithoutSignType(map[key := content], r, s);
  }

  // ---- when the text fixes the fields

  /** Names free of '=' and '&', and values free of '&'. */
  ghost predicate Separable(kept: map<string, string>) {
    forall k :: k in kept ==> '=' !in k && '&' !in k && '&' !in kept[k]
  }

  lemma OnePart(k: string, v: string)
    requires '&' !in k && '&' !in v
    ensures '&' !in k + "=" + v
  {
    assert "="[0] == '=';
  }

  lemma {:induction false} PartsHaveNoSeparator(keys: seq<string>, kept: map<string, string>)
    requires Elems(keys) <= kept.Keys && Separable(kept)
    ensures forall p :: p in Parts(keys, kept) ==> '&' !in p
  {
    if keys != [] {
      assert keys[0] in Elems(keys) && forall k :: k in keys[1..] ==> k in Elems(keys);
      OnePart(keys[0], kept[keys[0]]);
      PartsHaveNoSeparator(keys[1..], kept);
    }
  }

  lemma TextSplits(keys: seq<string>, kept: map<string, string>)
    requires keys != [] && Elems(keys) <= kept.Keys && Separable(kept)
    ensures Split(Join(Parts(keys, kept), '&'), '&') == Parts(keys, kept)
  {
    TextLength(keys, kept);
    PartsHaveNoSeparator(keys, kept);
    SplitJoin(Parts(keys, kept), '&');
    SplitEachPlain(Parts(keys, kept), '&');
  }

  /** The part of a text before its first '='. */
  function NameOf(s: string): string { if s == "" || s[0] == '=' then "" else [s[0]] + NameOf(s[1..]) }

  lemma {:induction false} NameOfPart(k: string, v: string)
    requires '=' !in k
    ensures NameOf(k + "=" + v) == k
  {
    if k == "" {
      assert ("" + "=" + v)[0] == '=';
    } else {
      assert (k + "=" + v)[1..] == k[1..] + "=" + v;
      NameOfPart(k[1..], v);
      assert k == [k[0]] + k[1..];
    }
  }

  /** A part is cut at its first '='. */
  lemma PartFixesField(k: string, v: string, l: string, w: string)
    requires '=' !in k && '=' !in l && k + "=" + v == l + "=" + w
    ensures k == l && v == w
  {
    NameOfPart(k, v);
    NameOfPart(l, w);
    assert (k + "=" + v)[|k| + 1..] == v && (l + "=" + w)[|l| + 1..] == w;
  }

  lemma {:induction false} PartsFixFields(keys: seq<string>, a: map<string, string>, other: seq<string>,
                                          b: map<string, string>)
    requires Elems(keys) <= a.Keys && Elems(other) <= b.Keys && Separable(a) && Separable(b)
    requires Parts(keys, a) == Parts(other, b)
    ensures keys == other && forall k :: k in Elems(keys) ==> k in b && a[k] == b[k]
  {
    TextLength(keys, a);
    TextLength(other, b);
    if keys != [] {
      assert keys[0] in Elems(keys) && forall k :: k in keys[1..] ==> k in Elems(keys);
      assert other[0] in Elems(other) && forall k :: k in other[1..] ==> k in Elems(other);
      var p, q := Parts(keys, a), Parts(other, b);
      assert p[0] == q[0] && p[1..] == q[1..];
      PartFixesField(keys[0], a[keys[0]], other[0], b[other[0]]);
      assert p[1..] == Parts(keys[1..], a) && q[1..] == Parts(other[1..], b);
      PartsFixFields(keys[1..], a, other[1..], b);
      assert keys == [keys[0]] + keys[1..] && other == [other[0]] + other[1..];
    }
  }

  lemma SameFields(keys: seq<string>, a: map<string, string>, b: map<string, string>)
    requires Elems(keys) == a.Keys == b.Keys && forall k :: k in Elems(keys) ==> a[k] == b[k]
    ensures a == b
  {
  }

  /** If no name holds '=' or '&' and no value holds '&', the text fixes the fields that count. */
  lemma TextFixesFields(r: string, a: map<string, string>, b: map<string, string>)
    requires Separable(a) && Separable(b) && IsText(r, a) && IsText(r, b)
    ensures a == b
  {
    var keys :| Sorted(keys) && Elems(keys) == a.Keys && r == Join(Parts(keys, a), '&');
    var other :| Sorted(other) && Elems(other) == b.Keys && r == Join(Parts(other, b), '&');
    TextLength(keys, a);
    TextLength(other, b);
    if keys == [] || other == [] {
      assert keys == other;
    } else {
      TextSplits(keys, a);
      TextSplits(other, b);
      PartsFixFields(keys, a, other, b);
    }
    SameFields(keys, a, b);
  }

  lemma OnePartOf(k: string, a: map<string, string>)
    requires k in a
    ensures Elems([k]) == {k} && Parts([k], a) == [k + "=" + a[k]]
  {
    assert k in Elems([k]) && [k][1..] == [];
    assert Parts([], a) == [];
  }

  lemma TwoParts(k: string, l: string, a: map<string, string>)
    requires k in a && l in a
    ensures Elems([k, l]) == {k, l} && Parts([k, l], a) == [k + "=" + a[k], l + "=" + a[l]]
  {
    OnePartOf(l, a);
    assert [k, l][1..] == [l] && [k, l][0] == k;
    assert Parts([k, l], a) == [k + "=" + a[k]] + Parts([l], a);
  }

  lemma JoinTwo(p: string, q: string)
    ensures Join([p], '&') == p && Join([p, q], '&') == p + "&" + q
  {
    assert [p, q][1..] == [q];
  }

  lemma SortedPair(k: string, l: string)
    requires Less(k, l)
    ensures Sorted([k]) && Sorted([k, l])
  {
    assert [k][1..] == [] && [l][1..] == [] && [k, l][1..] == [l];
    assert Precedes(k, []) && Precedes(l, []);
    assert Sorted([l]);
  }

  lemma TextOfTwo(k: string, v: string, l: string, w: string)
    requires Less(k, l) && k != l
    ensures IsText(k + "=" + v + "&" + (l + "=" + w), map[k := v, l := w])
  {
    var two := map[k := v, l := w];
    SortedPair(k, l);
    TwoParts(k, l, two);
    JoinTwo(k + "=" + v, l + "=" + w);
    assert Elems([k, l]) == two.Keys;
  }

  lemma TextOfOne(k: string, v: string)
    ensures IsText(k + "=" + v, map[k := v])
  {
    var one := map[k := v];
    OnePartOf(k, one);
    JoinTwo(k + "=" + v, "");
    assert [k][1..] == [] && Sorted([k]) && Elems([k]) == one.Keys;
  }

  /** A value that holds '&' can stand for a second field: both maps have one text. */
  lemma SeparatorCollides(k: string, v: string, l: string, w: string, v2: string)
    requires Less(k, l) && v2 == v + "&" + (l + "=" + w)
    ensures IsText(k + "=" + v2, map[k := v2]) && IsText(k + "=" + v2, map[k := v, l := w])
    ensures map[k := v, l := w] != map[k := v2]
  {
    LessIsStrict(k, l);
    TextOfOne(k, v2);
    TextOfTwo(k, v, l, w);
    assert k + "=" + v2 == k + "=" + v + "&" + (l + "=" + w);
    assert l in map[k := v, l := w] && l !in map[k := v2];
  }

  /** How many '=' a text holds. */
  function Equals(s: string): nat {
    if s == "" then 0 else Equals(s[..|s| - 1]) + if s[|s| - 1] == '=' then 1 else 0
  }

  lemma {:induction false} EqualsAppend(a: string, b: string)
    ensures Equals(a + b) == Equals(a) + Equals(b)
    decreases |b|
  {
    if b == "" {
      assert a + b == a;
    } else {
      assert (a + b)[..|a + b| - 1] == a + b[..|b| - 1];
      EqualsAppend(a, b[..|b| - 1]);
    }
  }

  lemma {:induction false} NoEquals(s: string)
    ensures Equals(s) == 0 <==> '=' !in s
  {
    if s != "" {
      NoEquals(s[..|s| - 1]);
      assert s == s[..|s| - 1] + [s[|s| - 1]];
    }
  }

  lemma EqualsOfPart(k: string, v: string)
    ensures Equals(k + "=" + v) == Equals(k) + 1 + Equals(v)
  {
    EqualsAppend(k, "=");
    EqualsAppend(k + "=", v);
    assert "="[..0] == "" && Equals("=") == 1;
  }

  /** Every field brings a '='. */
  lemma {:induction false} EqualsOfText(keys: seq<string>, kept: map<string, string>)
    requires Elems(keys) <= kept.Keys
    ensures Equals(Join(Parts(keys, kept), '&')) >= |keys|
  {
    if keys != [] {
      assert keys[0] in Elems(keys) && forall k :: k in keys[1..] ==> k in Elems(keys);
      var part, rest := keys[0] + "=" + kept[keys[0]], Parts(keys[1..], kept);
      EqualsOfPart(keys[0], kept[keys[0]]);
      EqualsOfText(keys[1..], kept);
      TextLength(keys[1..], kept);
      assert Parts(keys, kept)[1..] == rest && Parts(keys, kept)[0] == part;
      EqualsAppend(part, ['&']);
      EqualsAppend(part + ['&'], Join(rest, '&'));
    }
  }

  /** With at most one '=' in its text a map has at most one field. */
  lemma FewFields(r: string, a: map<string, string>)
    requires IsText(r, a) && Equals(r) <= 1
    ensures (r == "" && a == map[]) || exists k :: k in a && a == map[k := a[k]] && r == k + "=" + a[k]
  {
    var keys :| Sorted(keys) && Elems(keys) == a.Keys && r == Join(Parts(keys, a), '&');
    EqualsOfText(keys, a);
    if keys == [] {
      assert a == map[];
    } else {
      var k := keys[0];
      assert keys == [k] && k in a;
      OnePartOf(k, a);
      assert a == map[k := a[k]];
    }
  }

  lemma FewFieldsUnique(r: string, a: map<string, string>, b: map<string, string>)
    requires IsText(r, a) && IsText(r, b) && Equals(r) <= 1
    ensures a == b
  {
    FewFields(r, a);
    FewFields(r, b);
    if r != "" {
      var k :| k in a && a == map[k := a[k]] && r == k + "=" + a[k];
      var l :| l in b && b == map[l := b[l]] && r == l + "=" + b[l];
      EqualsOfPart(k, a[k]);
      EqualsOfPart(l, b[l]);
      NoEquals(k);
      NoEquals(l);
      PartFixesField(k, a[k], l, b[l]);
    }
  }

  /** Cut at any '=', a text is the text of one field. */
  lemma CutAt(r: string, p: nat)
    requires p < |r| && r[p] == '='
    ensures IsText(r, map[r[..p] := r[p + 1..]])
  {
    TextOfOne(r[..p], r[p + 1..]);
    assert r == r[..p] + "=" + r[p + 1..];
  }

  lemma {:induction false} TwoEquals(s: string) returns (p: nat, q: nat)
    requires Equals(s) >= 2
    ensures p < q < |s| && s[p] == '=' && s[q] == '='
  {
    var front := s[..|s| - 1];
    if s[|s| - 1] == '=' {
      NoEquals(front);
      q := |s| - 1;
      p :| 0 <= p < |front| && front[p] == '=';
    } else {
      p, q := TwoEquals(front);
    }
  }

  /** So cut at two places it is the text of two. */
  lemma TwoCuts(r: string, p: nat, q: nat) returns (b: map<string, string>, c: map<string, string>)
    requires p < q < |r| && r[p] == '=' && r[q] == '='
    ensures IsText(r, b) && IsText(r, c) && b != c
  {
    b, c := map[r[..p] := r[p + 1..]], map[r[..q] := r[q + 1..]];
    CutAt(r, p);
    CutAt(r, q);
    assert |r[..p]| != |r[..q]| && r[..q] in c && r[..q] !in b;
  }

  ghost predicate OnlyTextOf(r: string, a: map<string, string>) { forall b :: IsText(r, b) ==> b == a }

  /** Among all fields whatever, a text stands for one set of fields only if and only if it holds at most one '='. */
  lemma TextFixesExactly(r: string, a: map<string, string>)
    requires IsText(r, a)
    ensures OnlyTextOf(r, a) <==> Equals(r) <= 1
  {
    if Equals(r) <= 1 {
      forall b | IsText(r, b) ensures b == a { FewFieldsUnique(r, a, b); }
    } else {
      var p, q := TwoEquals(r);
      var b, c := TwoCuts(r, p, q);
      assert b != a || c != a;
    }
  }

  // ---- the code

  /** The loop over the map, in any order. */
  method CollectKeys(values: map<string, string>, includeSignType: bool) returns (keys: seq<string>)
    ensures Distinct(keys) && Elems(keys) == Kept(values, Skipped(includeSignType)).Keys
  {
    keys := [];
    ghost var skip := Skipped(includeSignType);
    var left := values.Keys;
    while left != {}
      invariant left <= values.Keys && Distinct(keys)
      invariant forall k :: k in keys <==> k in values.Keys - left && k !in skip && !Blank(values[k])
      decreases left
    {
      ghost var some := SomeMember(left);
      var key :| key in left;
      if key != SIGN && (includeSignType || key != SIGN_TYPE) && !Blank(values[key]) { keys := keys + [key]; }
      left := left - {key};
    }
  }

  method WriteParts(keys: seq<string>, values: map<string, string>) returns (parts: seq<string>)
    requires Elems(keys) <= values.Keys
    ensures parts == Parts(keys, values)
  {
    parts := [];
    var i := 0;
    while i < |keys|
      invariant i <= |keys| && Elems(keys[i..]) <= values.Keys
      invariant parts + Parts(keys[i..], values) == Parts(keys, values)
    {
      ghost var rest := keys[i..];
      assert rest[0] == keys[i] && keys[i] in Elems(rest) && rest[1..] == keys[i + 1..];
      assert Parts(rest, values) == [keys[i] + "=" + values[keys[i]]] + Parts(rest[1..], values);
      parts := parts + [keys[i] + "=" + values[keys[i]]];
      i := i + 1;
    }
  }

  method AlipayCanonicalString(values: map<string, string>, includeSignType: bool) returns (r: string)
    ensures IsCanonical(r, values, includeSignType)
  {
    var keys := CollectKeys(values, includeSignType);
    keys := SortStrings(keys);
    var parts := WriteParts(keys, values);
    PartsAgree(keys, values, Kept(values, Skipped(includeSignType)));
    r := Join(parts, '&');
  }
}
