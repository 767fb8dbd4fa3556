/**
 The ordered-set algebra on model-name lists: normalize, merge, subtract, intersect.

 The list functions recurse on the last element, as do the lemmas about them; `Names` is the set of
 names a list stands for, and every operation is characterised by what it does to that set.
 */
module ModelNames {
  import opened GoText
  import opened Sequences

  function Front(s: seq<string>): seq<string>
    requires s != []
  {
    s[..|s| - 1]
  }

  function Last(s: seq<string>): string
    requires s != []
  {
    s[|s| - 1]
  }

  /** Trimmed, non-empty and without repetitions. */
  predicate Normalized(s: seq<string>) {
    s == [] || (Normalized(Front(s)) && Last(s) !in Front(s) && Last(s) != "" && Trimmed(Last(s)))
  }

  /** The names a list stands for, whatever its spacing, blanks and repetitions. */
  function Names(s: seq<string>): set<string> {
    if s == [] then {}
    else if TrimSpace(Last(s)) == "" then Names(Front(s))
    else Names(Front(s)) + {TrimSpace(Last(s))}
  }

  /** First occurrences, in order, of the trimmed non-empty names. */
  function Normalize(s: seq<string>): seq<string> {
    if s == [] then []
    else
      var rest, t := Normalize(Front(s)), TrimSpace(Last(s));
      if t == "" || t in rest then rest else rest + [t]
  }

  /** The members of `s` that are in `keep`, in order. */
  function Keep(s: seq<string>, keep: set<string>): seq<string> {
    if s == [] then []
    else if Last(s) in keep then Keep(Front(s), keep) + [Last(s)]
    else Keep(Front(s), keep)
  }

  /** The base keeps its place, new names follow in order; `MergeModelNames` is the loop that does it. */
  function Merge(base: seq<string>, appended: seq<string>): seq<string> {
    Normalize(base + Normalize(appended))
  }

  function Subtract(base: seq<string>, removed: seq<string>): seq<string> {
    Keep(Normalize(base), Names(base) - Names(removed))
  }

  function Intersect(base: seq<string>, allowed: seq<string>): seq<string> {
    Keep(Normalize(base), Names(allowed))
  }

  /** `applySelectedModelChanges`: when a name is selected for both, adding wins. */
  function ApplySelected(origin: seq<string>, add: seq<string>, remove: seq<string>): seq<string> {
    var toAdd := Normalize(add);
    var toRemove := Subtract(Normalize(remove), toAdd);
    Subtract(Merge(origin, toAdd), toRemove)
  }

  // ---- what the operations mean

  lemma Snoc(s: seq<string>, x: string)
    ensures Front(s + [x]) == s && Last(s + [x]) == x
    ensures Elems(s + [x]) == Elems(s) + {x}
  {
  }

  lemma {:induction false} NormalizeMeans(s: seq<string>)
    ensures Normalized(Normalize(s)) && Elems(Normalize(s)) == Names(s)
  {
    if s != [] {
      NormalizeMeans(Front(s));
      Snoc(Normalize(Front(s)), TrimSpace(Last(s)));
    }
  }

  /** A normalized list is its own normal form and stands for its members. */
  lemma {:induction false} NormalizedFixed(s: seq<string>)
    requires Normalized(s)
    ensures Normalize(s) == s && Names(s) == Elems(s)
  {
    if s != [] {
      NormalizedFixed(Front(s));
      Snoc(Front(s), Last(s));
      assert Front(s) + [Last(s)] == s;
    }
  }

  lemma {:induction false} KeepMeans(s: seq<string>, keep: set<string>)
    ensures Elems(Keep(s, keep)) == Elems(s) * keep
    ensures Normalized(s) ==> Normalized(Keep(s, keep))
    ensures Elems(s) <= keep ==> Keep(s, keep) == s
  {
    if s != [] {
      KeepMeans(Front(s), keep);
      Snoc(Front(s), Last(s));
      Snoc(Keep(Front(s), keep), Last(s));
      assert Front(s) + [Last(s)] == s;
      assert Last(s) in Keep(Front(s), keep) ==> Last(s) in Elems(Keep(Front(s), keep));
    }
  }

  lemma {:induction false} NamesAppend(a: seq<string>, b: seq<string>)
    ensures Names(a + b) == Names(a) + Names(b)
    decreases |b|
  {
    if b == [] {
      assert a + b == a;
    } else {
      assert Front(a + b) == a + Front(b) && Last(a + b) == Last(b);
      NamesAppend(a, Front(b));
    }
  }

  /** The first place where the list has the name. */
  ghost predicate FirstAt(s: seq<string>, x: string, k: nat) {
    k < |s| && TrimSpace(s[k]) == x && forall j :: 0 <= j < k ==> TrimSpace(s[j]) != x
  }

  lemma {:induction false} NormalizeHas(s: seq<string>, k: nat)
    requires k < |s| && TrimSpace(s[k]) != ""
    ensures TrimSpace(s[k]) in Normalize(s)
  {
    if k < |s| - 1 { NormalizeHas(Front(s), k); }
  }

  lemma FirstInFront(s: seq<string>, x: string, k: nat)
    requires s != [] && FirstAt(Front(s), x, k)
    ensures FirstAt(s, x, k) && k < |s| - 1
  {
  }

  lemma NewIsFirst(s: seq<string>, x: string)
    requires s != [] && x == TrimSpace(Last(s)) != "" && x !in Normalize(Front(s))
    ensures FirstAt(s, x, |s| - 1)
  {
    forall j | 0 <= j < |s| - 1 ensures TrimSpace(s[j]) != x {
      if TrimSpace(s[j]) == x { NormalizeHas(Front(s), j); }
    }
  }

  lemma {:induction false} NormalizeFirst(s: seq<string>, i: nat) returns (k: nat)
    requires i < |Normalize(s)|
    ensures FirstAt(s, Normalize(s)[i], k)
  {
    if i < |Normalize(Front(s))| {
      k := NormalizeFirst(Front(s), i);
      FirstInFront(s, Normalize(s)[i], k);
    } else {
      k := |s| - 1;
      NewIsFirst(s, Normalize(s)[i]);
    }
  }

  /** Normalizing keeps the names in the order of their first occurrences. */
  lemma {:induction false} NormalizeInOrder(s: seq<string>, i: nat, j: nat) returns (p: nat, q: nat)
    requires i < j < |Normalize(s)|
    ensures FirstAt(s, Normalize(s)[i], p) && FirstAt(s, Normalize(s)[j], q) && p < q
  {
    if j < |Normalize(Front(s))| {
      p, q := NormalizeInOrder(Front(s), i, j);
      FirstInFront(s, Normalize(s)[j], q);
    } else {
      p := NormalizeFirst(Front(s), i);
      q := |s| - 1;
      NewIsFirst(s, Normalize(s)[j]);
    }
    FirstInFront(s, Normalize(s)[i], p);
  }

  /** Selecting members keeps their order. */
  lemma {:induction false} KeepInOrder(s: seq<string>, keep: set<string>, i: nat, j: nat) returns (p: nat, q: nat)
    requires i < j < |Keep(s, keep)|
    ensures p < q < |s| && s[p] == Keep(s, keep)[i] && s[q] == Keep(s, keep)[j]
  {
    var rest := Keep(Front(s), keep);
    if j < |rest| {
      p, q := KeepInOrder(Front(s), keep, i, j);
    } else {
      p := KeptAt(Front(s), keep, i);
      q := |s| - 1;
    }
  }

  lemma {:induction false} KeptAt(s: seq<string>, keep: set<string>, i: nat) returns (p: nat)
    requires i < |Keep(s, keep)|
    ensures p < |s| && s[p] == Keep(s, keep)[i]
  {
    if i < |Keep(Front(s), keep)| { p := KeptAt(Front(s), keep, i); } else { p := |s| - 1; }
  }

  /** Names already in the base add nothing. */
  lemma {:induction false} NormalizeAppend(a: seq<string>, b: seq<string>)
    requires Names(b) <= Names(a)
    ensures Normalize(a + b) == Normalize(a)
    decreases |b|
  {
    if b == [] {
      assert a + b == a;
    } else {
      assert Front(a + b) == a + Front(b) && Last(a + b) == Last(b);
      NormalizeAppend(a, Front(b));
      NormalizeMeans(a);
      var t := TrimSpace(Last(b));
      assert t == "" || t in Names(b);
      assert t == "" || t in Elems(Normalize(a));
    }
  }

  lemma MergeMeans(base: seq<string>, appended: seq<string>)
    ensures Normalized(Merge(base, appended))
    ensures Elems(Merge(base, appended)) == Names(base) + Names(appended)
    ensures Names(appended) <= Names(base) ==> Merge(base, appended) == Normalize(base)
  {
    NormalizeNames(appended);
    NormalizeMeans(base + Normalize(appended));
    NamesAppend(base, Normalize(appended));
    if Names(appended) <= Names(base) { NormalizeAppend(base, Normalize(appended)); }
  }

  lemma SubtractMeans(base: seq<string>, removed: seq<string>)
    ensures Normalized(Subtract(base, removed))
    ensures Elems(Subtract(base, removed)) == Names(base) - Names(removed)
    ensures Names(base) !! Names(removed) ==> Subtract(base, removed) == Normalize(base)
  {
    NormalizeMeans(base);
    KeepMeans(Normalize(base), Names(base) - Names(removed));
  }

  lemma IntersectMeans(base: seq<string>, allowed: seq<string>)
    ensures Normalized(Intersect(base, allowed))
    ensures Elems(Intersect(base, allowed)) == Names(base) * Names(allowed)
    ensures Names(base) <= Names(allowed) ==> Intersect(base, allowed) == Normalize(base)
  {
    NormalizeMeans(base);
    KeepMeans(Normalize(base), Names(allowed));
  }

  lemma ApplySelectedMeans(origin: seq<string>, add: seq<string>, remove: seq<string>)
    ensures Normalized(ApplySelected(origin, add, remove))
    ensures Elems(ApplySelected(origin, add, remove)) == Names(add) + (Names(origin) - Names(remove))
  {
    NormalizeNames(add);
    NormalizeNames(remove);
    SubtractNames(Normalize(remove), Normalize(add));
    MergeNames(origin, Normalize(add));
    SubtractMeans(Merge(origin, Normalize(add)), Subtract(Normalize(remove), Normalize(add)));
    SetLaw(Names(origin), Names(add), Names(remove));
  }

  lemma SetLaw(a: set<string>, b: set<string>, c: set<string>)
    ensures (a + b) - (c - b) == b + (a - c)
  {
  }

  /** With nothing selected the list is only normalized. */
  lemma ApplySelectedNothing(origin: seq<string>, add: seq<string>, remove: seq<string>)
    requires Names(add) == {} && Names(remove) == {}
    ensures ApplySelected(origin, add, remove) == Normalize(origin)
  {
    NormalizeNames(add);
    NormalizeNames(remove);
    SubtractNames(Normalize(remove), Normalize(add));
    MergeMeans(origin, Normalize(add));
    SubtractMeans(Merge(origin, Normalize(add)), Subtract(Normalize(remove), Normalize(add)));
    NormalizeMeans(origin);
    NormalizedFixed(Normalize(origin));
  }

  lemma NormalizeNames(s: seq<string>)
    ensures Names(Normalize(s)) == Names(s)
  {
    NormalizeMeans(s);
    NormalizedFixed(Normalize(s));
  }

  lemma SubtractNames(base: seq<string>, removed: seq<string>)
    ensures Names(Subtract(base, removed)) == Names(base) - Names(removed)
  {
    SubtractMeans(base, removed);
    NormalizedFixed(Subtract(base, removed));
  }

  lemma IntersectNames(base: seq<string>, allowed: seq<string>)
    ensures Names(Intersect(base, allowed)) == Names(base) * Names(allowed)
  {
    IntersectMeans(base, allowed);
    NormalizedFixed(Intersect(base, allowed));
  }

  lemma MergeNames(base: seq<string>, appended: seq<string>)
    ensures Names(Merge(base, appended)) == Names(base) + Names(appended)
  {
    MergeMeans(base, appended);
    NormalizedFixed(Merge(base, appended));
  }

  lemma MergeNext(base: seq<string>, extra: seq<string>, i: nat)
    requires Normalized(extra) && i < |extra|
    ensures Normalize(base + extra[..i + 1])
         == var rest := Normalize(base + extra[..i]); if extra[i] in rest then rest else rest + [extra[i]]
  {
    NormalizedPrefix(extra, i + 1);
    var s := base + extra[..i + 1];
    assert Front(extra[..i + 1]) == extra[..i] && Last(extra[..i + 1]) == extra[i];
    assert Front(s) == base + extra[..i] && Last(s) == extra[i];
  }

  /** The merge loop, with its `seen` set. */
  method MergeModelNames(base: seq<string>, appended: seq<string>) returns (merged: seq<string>)
    ensures merged == Merge(base, appended)
  {
    merged := Normalize(base);
    var seen := Elems(merged);
    var extra := Normalize(appended);
    NormalizeMeans(appended);
    assert base + extra[..0] == base;
    for i := 0 to |extra|
      invariant merged == Normalize(base + extra[..i])
      invariant seen == Elems(merged)
    {
      MergeNext(base, extra, i);
      Snoc(merged, extra[i]);
      if extra[i] !in seen {
        seen := seen + {extra[i]};
        merged := merged + [extra[i]];
      }
    }
    assert extra[..|extra|] == extra;
  }

  lemma {:induction false} NormalizedPrefix(s: seq<string>, n: nat)
    requires Normalized(s) && n <= |s|
    ensures Normalized(s[..n])
  {
    if n < |s| {
      NormalizedPrefix(Front(s), n);
      assert Front(s)[..n] == s[..n];
    } else {
      assert s[..n] == s;
    }
  }
}
