/**
 The click captcha: challenges are stored once, taken once, and a list of clicks is matched greedily
 against the targets of the challenge.  Whether a click hits a target is a parameter.
 */
module Captcha {
  import opened Wrappers
  import opened Sequences

  datatype Click = Click(x: int, y: int)
  datatype Target = Target(x: int, y: int, width: int, height: int)
  type Hit = (Click, Target) -> bool

  predicate OnImage(c: Click) { c.x >= 0 && c.y >= 0 }

  // ---- greedy matching

  /** The first target from `i` on that is not taken yet and that the click hits. */
  function FirstFree(hit: Hit, c: Click, targets: seq<Target>, taken: seq<nat>, i: nat): (r: Option<nat>)
    ensures r.Some? ==> i <= r.value < |targets| && r.value !in taken && hit(c, targets[r.value])
    ensures r.None? ==> forall k :: i <= k < |targets| && k !in taken ==> !hit(c, targets[k])
    decreases |targets| - i
  {
    if i >= |targets| then None
    else if i !in taken && hit(c, targets[i]) then Some(i)
    else FirstFree(hit, c, targets, taken, i + 1)
  }

  /** The target index the greedy loop gives to each click, in click order, if it gets through. */
  function Assign(hit: Hit, clicks: seq<Click>, targets: seq<Target>): Option<seq<nat>> {
    if clicks == [] then Some([])
    else
      var front, last := Assign(hit, clicks[..|clicks| - 1], targets), clicks[|clicks| - 1];
      if front.None? || !OnImage(last) then None
      else
        var free := FirstFree(hit, last, targets, front.value, 0);
        if free.None? then None else Some(front.value + [free.value])
  }

  predicate Accepts(hit: Hit, clicks: seq<Click>, targets: seq<Target>) {
    |clicks| == |targets| && Assign(hit, clicks, targets).Some?
  }

  /** Each click gets a target of its own that it hits. */
  ghost predicate Matching(hit: Hit, clicks: seq<Click>, targets: seq<Target>, a: seq<nat>) {
    && |a| == |clicks| && Distinct(a)
    && forall i :: 0 <= i < |a| ==>
         clicks[i].x >= 0 && clicks[i].y >= 0 && a[i] < |targets| && hit(clicks[i], targets[a[i]])
  }

  lemma {:induction false} AssignIsMatching(hit: Hit, clicks: seq<Click>, targets: seq<Target>)
    requires Assign(hit, clicks, targets).Some?
    ensures Matching(hit, clicks, targets, Assign(hit, clicks, targets).value)
  {
    if clicks != [] { AssignIsMatching(hit, clicks[..|clicks| - 1], targets); }
  }

  lemma {:induction false} DistinctCount(a: seq<nat>)
    requires Distinct(a)
    ensures |Elems(a)| == |a|
  {
    if a != [] {
      var front, last := a[..|a| - 1], a[|a| - 1];
      DistinctCount(front);
      assert last !in front;
      assert Elems(a) == Elems(front) + {last};
    }
  }

  lemma FullSubset(small: set<nat>, large: set<nat>)
    requires small <= large && |small| == |large|
    ensures small == large
  {
    assert large == small + (large - small);
  }

  /** `n` distinct numbers below `n` are all of them. */
  lemma Pigeonhole(a: seq<nat>, n: nat, x: nat)
    requires Distinct(a) && |a| == n && (forall i :: 0 <= i < |a| ==> a[i] < n) && x < n
    ensures x in a
  {
    DistinctCount(a);
    FullSubset(Elems(a), Below(n));
    assert x in Elems(a);
  }

  /** A matching with as many targets as clicks leaves no target out: it is a bijection. */
  lemma MatchingIsOnto(hit: Hit, clicks: seq<Click>, targets: seq<Target>, a: seq<nat>, t: nat)
    requires Matching(hit, clicks, targets, a) && |clicks| == |targets| && t < |targets|
    ensures t in a
  {
    Pigeonhole(a, |targets|, t);
  }

  /** Acceptance means that clicks and targets pair off one to one, each click hitting its target. */
  lemma AcceptedIsBijection(hit: Hit, clicks: seq<Click>, targets: seq<Target>) returns (a: seq<nat>)
    requires Accepts(hit, clicks, targets)
    ensures Matching(hit, clicks, targets, a) && forall t: nat :: t < |targets| ==> t in a
  {
    a := Assign(hit, clicks, targets).value;
    AssignIsMatching(hit, clicks, targets);
    forall t: nat | t < |targets| ensures t in a { MatchingIsOnto(hit, clicks, targets, a, t); }
  }

  /** No click hits two targets. */
  ghost predicate Unambiguous(hit: Hit, clicks: seq<Click>, targets: seq<Target>) {
    forall c, i, j ::
      c in clicks && 0 <= i < |targets| && 0 <= j < |targets| && hit(c, targets[i]) && hit(c, targets[j]) ==> i == j
  }

  /** Without ambiguity the greedy loop finds the matching there is. */
  lemma {:induction false} GreedyFindsMatching(hit: Hit, clicks: seq<Click>, targets: seq<Target>, a: seq<nat>)
    requires Unambiguous(hit, clicks, targets) && Matching(hit, clicks, targets, a)
    ensures Assign(hit, clicks, targets) == Some(a)
  {
    if clicks != [] {
      var n := |clicks| - 1;
      assert forall c :: c in clicks[..n] ==> c in clicks;
      GreedyFindsMatching(hit, clicks[..n], targets, a[..n]);
      assert clicks[n] in clicks;
      var free := FirstFree(hit, clicks[n], targets, a[..n], 0);
      assert a[n] !in a[..n];
      assert free == Some(a[n]);
      assert a[..n] + [a[n]] == a;
    }
  }

  /** A click that hits a target the other one hits also hits every later target of that one. */
  predicate Follows(hit: Hit, targets: seq<Target>, a: Click, b: Click) {
    forall i, j ::
      0 <= i < j < |targets| && hit(a, targets[i]) && hit(a, targets[j]) && hit(b, targets[i]) ==> hit(b, targets[j])
  }

  ghost predicate ClosedFor(hit: Hit, clicks: seq<Click>, targets: seq<Target>) {
    forall a, b :: a in clicks && b in clicks ==> Follows(hit, targets, a, b)
  }

  ghost predicate Pairs(hit: Hit, clicks: seq<Click>, targets: seq<Target>) {
    exists a :: Matching(hit, clicks, targets, a)
  }

  lemma UnambiguousIsClosed(hit: Hit, clicks: seq<Click>, targets: seq<Target>)
    requires Unambiguous(hit, clicks, targets)
    ensures ClosedFor(hit, clicks, targets)
  {
  }

  lemma ChangeOne(hit: Hit, clicks: seq<Click>, targets: seq<Target>, m: seq<nat>, n: nat, i: nat)
    requires Matching(hit, clicks, targets, m) && n < |m| && i !in m && i < |targets| && hit(clicks[n], targets[i])
    ensures Matching(hit, clicks, targets, m[n := i])
  {
  }

  lemma SwapTwo(hit: Hit, clicks: seq<Click>, targets: seq<Target>, m: seq<nat>, n: nat, k: nat)
    requires Matching(hit, clicks, targets, m) && n < k < |m|
    requires hit(clicks[n], targets[m[k]]) && hit(clicks[k], targets[m[n]])
    ensures Matching(hit, clicks, targets, m[n := m[k]][k := m[n]])
  {
  }

  /** A matching that agrees with the greedy loop so far can be changed to agree for one click more. */
  lemma Exchange(hit: Hit, clicks: seq<Click>, targets: seq<Target>, m: seq<nat>, n: nat, i: nat)
    returns (r: seq<nat>)
    requires ClosedFor(hit, clicks, targets) && Matching(hit, clicks, targets, m) && n < |clicks|
    requires i < |targets| && i !in m[..n] && hit(clicks[n], targets[i]) && i <= m[n]
    ensures Matching(hit, clicks, targets, r) && r[..n] == m[..n] && r[n] == i
  {
    if i == m[n] {
      r := m;
    } else if i !in m {
      ChangeOne(hit, clicks, targets, m, n, i);
      r := m[n := i];
    } else {
      forall t | 0 <= t < n ensures m[t] != i { assert m[t] == m[..n][t]; }
      var k :| 0 <= k < |m| && m[k] == i;
      assert clicks[n] in clicks && clicks[k] in clicks && Follows(hit, targets, clicks[n], clicks[k]);
      SwapTwo(hit, clicks, targets, m, n, k);
      r := m[n := m[k]][k := m[n]];
    }
  }

  lemma FirstIsLeast(hit: Hit, c: Click, targets: seq<Target>, taken: seq<nat>, from: nat, x: nat)
    requires from <= x < |targets| && x !in taken && hit(c, targets[x])
    ensures FirstFree(hit, c, targets, taken, from).Some? && FirstFree(hit, c, targets, taken, from).value <= x
    decreases |targets| - from
  {
    if from < x { FirstIsLeast(hit, c, targets, taken, from + 1, x); }
  }

  /** If there is a matching, the greedy loop is always part of one. */
  lemma {:induction false} GreedyExtends(hit: Hit, clicks: seq<Click>, targets: seq<Target>, m: seq<nat>, n: nat)
    returns (r: seq<nat>)
    requires ClosedFor(hit, clicks, targets) && Matching(hit, clicks, targets, m) && n <= |clicks|
    ensures Matching(hit, clicks, targets, r) && Assign(hit, clicks[..n], targets) == Some(r[..n])
  {
    if n == 0 {
      r := m;
    } else {
      var q := GreedyExtends(hit, clicks, targets, m, n - 1);
      var c := clicks[n - 1];
      assert clicks[..n][..n - 1] == clicks[..n - 1] && clicks[..n][n - 1] == c;
      assert q[n - 1] !in q[..n - 1];
      FirstIsLeast(hit, c, targets, q[..n - 1], 0, q[n - 1]);
      var i := FirstFree(hit, c, targets, q[..n - 1], 0).value;
      r := Exchange(hit, clicks, targets, q, n - 1, i);
      assert r[..n] == r[..n - 1] + [i];
    }
  }

  /** If the clicks are closed, acceptance is the existence of a bijection. */
  lemma AcceptsIffBijection(hit: Hit, clicks: seq<Click>, targets: seq<Target>)
    requires ClosedFor(hit, clicks, targets)
    ensures Accepts(hit, clicks, targets) <==> |clicks| == |targets| && Pairs(hit, clicks, targets)
  {
    if Accepts(hit, clicks, targets) { AssignIsMatching(hit, clicks, targets); }
    if m :| Matching(hit, clicks, targets, m) {
      var r := GreedyExtends(hit, clicks, targets, m, |clicks|);
      assert clicks[..|clicks|] == clicks;
    }
  }

  /** With an ambiguous click first, the greedy loop turns down clicks that do pair off, and takes them in
      the other order. */
  lemma AmbiguityDependsOnOrder(hit: Hit, both: Click, first: Click, s: Target, t: Target)
    requires OnImage(both) && OnImage(first)
    requires hit(both, s) && hit(both, t) && hit(first, s) && !hit(first, t)
    ensures Matching(hit, [both, first], [s, t], [1, 0])
    ensures !Accepts(hit, [both, first], [s, t]) && Accepts(hit, [first, both], [s, t])
  {
    assert [both, first][..1] == [both] && [first, both][..1] == [first];
    assert [both][..0] == [] && [first][..0] == [];
    assert FirstFree(hit, both, [s, t], [], 0) == Some(0) && FirstFree(hit, first, [s, t], [], 0) == Some(0);
    assert Assign(hit, [], [s, t]) == Some([]) && [] + [0] == [0];
    assert Assign(hit, [both], [s, t]) == Some([0]) && Assign(hit, [first], [s, t]) == Some([0]);
    assert FirstFree(hit, first, [s, t], [0], 0) == None;
    assert FirstFree(hit, both, [s, t], [0], 0) == Some(1);
  }

  // ---- the order of the clicks

  lemma MatchingWithout(hit: Hit, clicks: seq<Click>, targets: seq<Target>, a: seq<nat>, k: nat)
    requires Matching(hit, clicks, targets, a) && k < |clicks|
    ensures Matching(hit, RemoveAt(clicks, k), targets, RemoveAt(a, k)) && a[k] !in RemoveAt(a, k)
  {
  }

  lemma MatchingWith(hit: Hit, clicks: seq<Click>, targets: seq<Target>, a: seq<nat>, c: Click, t: nat)
    requires Matching(hit, clicks, targets, a) && t !in a && t < |targets| && OnImage(c) && hit(c, targets[t])
    ensures Matching(hit, clicks + [c], targets, a + [t])
  {
  }

  lemma SameMembers(a: seq<nat>, b: seq<nat>, x: nat)
    requires multiset(a) == multiset(b) && x !in b
    ensures x !in a
  {
    assert x !in multiset(b);
  }

  lemma HasMember(clicks: seq<Click>, other: seq<Click>, n: nat) returns (k: nat)
    requires multiset(clicks) == multiset(other) && n < |other|
    ensures k < |clicks| && clicks[k] == other[n]
  {
    assert other[n] in multiset(other);
    assert other[n] in clicks;
    k :| 0 <= k < |clicks| && clicks[k] == other[n];
  }

  lemma LastRemoved(clicks: seq<Click>, other: seq<Click>, k: nat)
    requires multiset(clicks) == multiset(other) && other != [] && k < |clicks| && clicks[k] == other[|other| - 1]
    ensures multiset(RemoveAt(clicks, k)) == multiset(other[..|other| - 1])
  {
    RemoveAtCounts(clicks, k);
    RemoveAtCounts(other, |other| - 1);
    assert RemoveAt(other, |other| - 1) == other[..|other| - 1];
    var x := clicks[k];
    assert multiset(RemoveAt(clicks, k)) == multiset(clicks) - multiset{x};
    assert multiset(other[..|other| - 1]) == multiset(other) - multiset{x};
  }

  /** A matching of some clicks can be rearranged for the same clicks in another order. */
  lemma {:induction false} MatchingPermutes(hit: Hit, clicks: seq<Click>, other: seq<Click>, targets: seq<Target>,
                                            a: seq<nat>)
    returns (b: seq<nat>)
    requires Matching(hit, clicks, targets, a) && multiset(clicks) == multiset(other)
    ensures Matching(hit, other, targets, b) && multiset(b) == multiset(a)
    decreases |other|
  {
    assert |multiset(clicks)| == |clicks| && |multiset(other)| == |other|;
    if other == [] {
      b := [];
    } else {
      var n := |other| - 1;
      var k := HasMember(clicks, other, n);
      LastRemoved(clicks, other, k);
      MatchingWithout(hit, clicks, targets, a, k);
      var c := MatchingPermutes(hit, RemoveAt(clicks, k), other[..n], targets, RemoveAt(a, k));
      SameMembers(c, RemoveAt(a, k), a[k]);
      MatchingWith(hit, other[..n], targets, c, other[n], a[k]);
      assert other == other[..n] + [other[n]];
      RemoveAtCounts(a, k);
      b := c + [a[k]];
    }
  }

  lemma PairsPermutes(hit: Hit, clicks: seq<Click>, other: seq<Click>, targets: seq<Target>)
    requires multiset(clicks) == multiset(other) && Pairs(hit, clicks, targets)
    ensures |clicks| == |other| && Pairs(hit, other, targets)
  {
    assert |multiset(clicks)| == |clicks| && |multiset(other)| == |other|;
    var a :| Matching(hit, clicks, targets, a);
    var b := MatchingPermutes(hit, clicks, other, targets, a);
  }

  predicate Ascending(a: seq<nat>) { forall i, j :: 0 <= i < j < |a| ==> a[i] < a[j] }

  /** In the order of the targets they are matched to, the greedy loop takes every click, and none later than there. */
  lemma {:induction false} AscendingAccepted(hit: Hit, clicks: seq<Click>, targets: seq<Target>, a: seq<nat>)
    requires Matching(hit, clicks, targets, a) && Ascending(a)
    ensures Assign(hit, clicks, targets).Some? && |Assign(hit, clicks, targets).value| == |clicks|
    ensures forall i :: 0 <= i < |clicks| ==> Assign(hit, clicks, targets).value[i] <= a[i]
  {
    if clicks != [] {
      var n := |clicks| - 1;
      AscendingAccepted(hit, clicks[..n], targets, a[..n]);
      var taken := Assign(hit, clicks[..n], targets).value;
      AssignIsMatching(hit, clicks[..n], targets);
      assert a[n] !in taken;
      FirstIsLeast(hit, clicks[n], targets, taken, 0, a[n]);
    }
  }

  lemma {:induction false} Greatest(a: seq<nat>) returns (k: nat)
    requires a != []
    ensures k < |a| && forall i :: 0 <= i < |a| ==> a[i] <= a[k]
  {
    var n := |a| - 1;
    k := n;
    if n > 0 {
      var q := Greatest(a[..n]);
      if a[q] > a[n] { k := q; }
    }
  }

  lemma AscendingSnoc(b: seq<nat>, a: seq<nat>, k: nat)
    requires Distinct(a) && k < |a| && (forall i :: 0 <= i < |a| ==> a[i] <= a[k])
    requires Ascending(b) && multiset(b) == multiset(RemoveAt(a, k))
    ensures Ascending(b + [a[k]])
  {
    forall i | 0 <= i < |b| ensures b[i] < a[k] {
      assert b[i] in multiset(b) && b[i] in RemoveAt(a, k);
    }
  }

  /** Some order of the clicks has its targets ascending. */
  lemma {:induction false} AscendingOrder(hit: Hit, clicks: seq<Click>, targets: seq<Target>, a: seq<nat>)
    returns (other: seq<Click>, b: seq<nat>)
    requires Matching(hit, clicks, targets, a)
    ensures multiset(other) == multiset(clicks) && multiset(b) == multiset(a)
    ensures Matching(hit, other, targets, b) && Ascending(b)
    decreases |clicks|
  {
    if clicks == [] {
      other, b := [], [];
    } else {
      var k := Greatest(a);
      MatchingWithout(hit, clicks, targets, a, k);
      var q, c := AscendingOrder(hit, RemoveAt(clicks, k), targets, RemoveAt(a, k));
      SameMembers(c, RemoveAt(a, k), a[k]);
      MatchingWith(hit, q, targets, c, clicks[k], a[k]);
      AscendingSnoc(c, a, k);
      RemoveAtCounts(clicks, k);
      RemoveAtCounts(a, k);
      other, b := q + [clicks[k]], c + [a[k]];
    }
  }

  /** Clicks pair off with the targets if and only if the loop accepts them in some order. */
  lemma SomeOrderAccepted(hit: Hit, clicks: seq<Click>, targets: seq<Target>)
    ensures |clicks| == |targets| && Pairs(hit, clicks, targets) <==>
            exists other :: multiset(other) == multiset(clicks) && Accepts(hit, other, targets)
  {
    if |clicks| == |targets| && Pairs(hit, clicks, targets) {
      var a :| Matching(hit, clicks, targets, a);
      var other, b := AscendingOrder(hit, clicks, targets, a);
      AscendingAccepted(hit, other, targets, b);
      assert |multiset(clicks)| == |clicks| && |multiset(other)| == |other|;
      assert Accepts(hit, other, targets);
    }
    if other :| multiset(other) == multiset(clicks) && Accepts(hit, other, targets) {
      AssignIsMatching(hit, other, targets);
      PairsPermutes(hit, other, clicks, targets);
    }
  }

  /** If the clicks are closed, their order does not matter. */
  lemma OrderDoesNotMatter(hit: Hit, clicks: seq<Click>, other: seq<Click>, targets: seq<Target>)
    requires ClosedFor(hit, clicks, targets) && multiset(clicks) == multiset(other)
    ensures Accepts(hit, clicks, targets) <==> Accepts(hit, other, targets)
  {
    forall c | c in other ensures c in clicks { assert c in multiset(other); }
    AcceptsIffBijection(hit, clicks, targets);
    AcceptsIffBijection(hit, other, targets);
    if Pairs(hit, clicks, targets) { PairsPermutes(hit, clicks, other, targets); }
    if Pairs(hit, other, targets) { PairsPermutes(hit, other, clicks, targets); }
    assert |multiset(clicks)| == |clicks| && |multiset(other)| == |other|;
  }

  // ---- for which targets the loop is right about all clicks

  ghost predicate Closed(hit: Hit, targets: seq<Target>) {
    forall a, b :: OnImage(a) && OnImage(b) ==> Follows(hit, targets, a, b)
  }

  ghost predicate CanHit(hit: Hit, t: Target) { exists c :: OnImage(c) && hit(c, t) }

  ghost predicate AllHittable(hit: Hit, targets: seq<Target>) { forall t :: t in targets ==> CanHit(hit, t) }

  /** The targets up to `i` that the click hits. */
  ghost function HitUpTo(hit: Hit, a: Click, targets: seq<Target>, i: nat): set<nat>
    requires i < |targets|
  {
    set k: nat | k <= i && hit(a, targets[k])
  }

  ghost function HitBy(hit: Hit, b: Click, targets: seq<Target>): set<nat> {
    set k: nat | k < |targets| && hit(b, targets[k])
  }

  ghost predicate AllAre(cs: seq<Click>, c: Click) { forall k :: 0 <= k < |cs| ==> cs[k] == c }

  lemma SomeLeft(small: set<nat>, large: set<nat>) returns (x: nat)
    requires small <= large && |small| < |large|
    ensures x in large && x !in small
  {
    assert large == small + (large - small) && |large - small| == |large| - |small|;
    x := SomeMember(large - small);
  }

  /** As many copies of a click as it has targets up to `i` take some of those targets. */
  lemma {:induction false} CopiesTake(hit: Hit, cs: seq<Click>, a: Click, targets: seq<Target>, i: nat)
    requires i < |targets| && OnImage(a) && AllAre(cs, a) && |cs| <= |HitUpTo(hit, a, targets, i)|
    ensures Assign(hit, cs, targets).Some? && Elems(Assign(hit, cs, targets).value) <= HitUpTo(hit, a, targets, i)
  {
    if cs != [] {
      var n := |cs| - 1;
      CopiesTake(hit, cs[..n], a, targets, i);
      var taken := Assign(hit, cs[..n], targets).value;
      AssignIsMatching(hit, cs[..n], targets);
      DistinctCount(taken);
      var x := SomeLeft(Elems(taken), HitUpTo(hit, a, targets, i));
      FirstIsLeast(hit, a, targets, taken, 0, x);
      var free := FirstFree(hit, cs[n], targets, taken, 0).value;
      assert Elems(taken + [free]) == Elems(taken) + {free};
    }
  }

  lemma {:induction false} AssignPrefix(hit: Hit, cs: seq<Click>, targets: seq<Target>, n: nat)
    requires n <= |cs| && Assign(hit, cs, targets).Some?
    ensures |Assign(hit, cs, targets).value| == |cs|
    ensures Assign(hit, cs[..n], targets) == Some(Assign(hit, cs, targets).value[..n])
  {
    AssignIsMatching(hit, cs, targets);
    if n == |cs| {
      var v := Assign(hit, cs, targets).value;
      assert cs[..n] == cs && v[..n] == v;
    } else {
      var front := cs[..|cs| - 1];
      AssignPrefix(hit, front, targets, n);
      assert front[..n] == cs[..n];
      assert Assign(hit, cs, targets).value[..n] == Assign(hit, front, targets).value[..n];
    }
  }

  lemma SubsetCount(small: set<nat>, large: set<nat>)
    requires small <= large
    ensures |small| <= |large|
  {
    assert large == small + (large - small);
  }

  lemma PartsOf(v: seq<nat>, n: nat)
    requires Distinct(v) && n <= |v|
    ensures Elems(v[..n]) !! Elems(v[n..]) && |Elems(v[..n])| == n && |Elems(v[n..])| == |v| - n
  {
    DistinctCount(v[..n]);
    DistinctCount(v[n..]);
    forall x | x in Elems(v[..n]) ensures x !in Elems(v[n..]) { }
  }

  /** Behind those copies, another click can only be taken as often as it has targets that are left. */
  lemma FewCopiesAfter(hit: Hit, cs: seq<Click>, a: Click, b: Click, targets: seq<Target>, i: nat, n: nat)
    requires i < |targets| && OnImage(a) && n == |HitUpTo(hit, a, targets, i)| <= |cs|
    requires AllAre(cs[..n], a) && AllAre(cs[n..], b) && Assign(hit, cs, targets).Some?
    ensures |cs| - n <= |HitBy(hit, b, targets) - HitUpTo(hit, a, targets, i)|
  {
    var v := Assign(hit, cs, targets).value;
    AssignIsMatching(hit, cs, targets);
    AssignPrefix(hit, cs, targets, n);
    CopiesTake(hit, cs[..n], a, targets, i);
    PartsOf(v, n);
    FullSubset(Elems(v[..n]), HitUpTo(hit, a, targets, i));
    forall x | x in Elems(v[n..]) ensures x in HitBy(hit, b, targets) {
      var k :| 0 <= k < |v[n..]| && v[n..][k] == x;
      assert v[n + k] == x && cs[n + k] == cs[n..][k] == b;
    }
    SubsetCount(Elems(v[n..]), HitBy(hit, b, targets) - HitUpTo(hit, a, targets, i));
  }

  /** The members of a set in some order. */
  lemma {:induction false} Listed(s: set<nat>) returns (e: seq<nat>)
    ensures Distinct(e) && Elems(e) == s && |e| == |s|
    decreases s
  {
    if s == {} {
      e := [];
    } else {
      var x := SomeMember(s);
      var q := Listed(s - {x});
      assert x !in Elems(q);
      e := q + [x];
      assert Elems(e) == Elems(q) + {x};
    }
  }

  /** A click for each of the listed targets. */
  lemma {:induction false} ClicksFor(hit: Hit, targets: seq<Target>, e: seq<nat>) returns (cs: seq<Click>)
    requires AllHittable(hit, targets) && forall k :: 0 <= k < |e| ==> e[k] < |targets|
    ensures HitEach(hit, cs, targets, e)
  {
    if e == [] {
      cs := [];
    } else {
      var n := |e| - 1;
      var q := ClicksFor(hit, targets, e[..n]);
      assert CanHit(hit, targets[e[n]]);
      var c :| OnImage(c) && hit(c, targets[e[n]]);
      cs := q + [c];
    }
  }

  ghost predicate HitEach(hit: Hit, cs: seq<Click>, targets: seq<Target>, e: seq<nat>) {
    |cs| == |e| && forall k :: 0 <= k < |e| ==> OnImage(cs[k]) && e[k] < |targets| && hit(cs[k], targets[e[k]])
  }

  function Copies(c: Click, n: nat): (cs: seq<Click>)
    ensures |cs| == n && AllAre(cs, c)
  {
    if n == 0 then [] else Copies(c, n - 1) + [c]
  }

  lemma HitEachAppend(hit: Hit, targets: seq<Target>, cs: seq<Click>, e: seq<nat>, ds: seq<Click>, f: seq<nat>)
    requires HitEach(hit, cs, targets, e) && HitEach(hit, ds, targets, f)
    ensures HitEach(hit, cs + ds, targets, e + f)
  {
  }

  lemma CopiesHit(hit: Hit, c: Click, targets: seq<Target>, e: seq<nat>)
    requires OnImage(c) && Elems(e) <= HitBy(hit, c, targets)
    ensures HitEach(hit, Copies(c, |e|), targets, e)
  {
    forall k | 0 <= k < |e| ensures e[k] in HitBy(hit, c, targets) { assert e[k] in Elems(e); }
  }

  lemma DistinctAppend(e: seq<nat>, f: seq<nat>)
    requires Distinct(e) && Distinct(f) && Elems(e) !! Elems(f)
    ensures Distinct(e + f) && Elems(e + f) == Elems(e) + Elems(f)
  {
    var s := e + f;
    forall i, j | 0 <= i < j < |s| ensures s[i] != s[j] {
      if i < |e| <= j { assert s[i] in Elems(e) && s[j] == f[j - |e|] && s[j] in Elems(f); }
    }
  }

  /** Three disjoint sets that are all the targets, listed one after the other. */
  lemma ListThree(p: set<nat>, q: set<nat>, n: nat) returns (e: seq<nat>, f: seq<nat>, g: seq<nat>)
    requires p !! q && p + q <= Below(n)
    ensures Elems(e) == p && |e| == |p| && Elems(f) == q && |f| == |q| && (forall k :: 0 <= k < |g| ==> g[k] < n)
    ensures Distinct(e + f + g) && |e + f + g| == n
  {
    e := Listed(p);
    f := Listed(q);
    g := Listed(Below(n) - (p + q));
    DistinctAppend(e, f);
    DistinctAppend(e + f, g);
    DistinctCount(e + f + g);
    assert Elems(e + f + g) == Below(n);
    forall k | 0 <= k < |g| ensures g[k] < n { assert g[k] in Elems(g); }
  }

  lemma Replaced(s: set<nat>, i: nat, j: nat)
    requires i in s && j !in s
    ensures |s - {i} + {j}| == |s|
  {
  }

  /** The targets that the copies of `a` can be matched to, and those for the copies of `b`. */
  lemma Places(up: set<nat>, hits: set<nat>, own: set<nat>, i: nat, j: nat, n: nat)
    requires i < j < n && i in up && up <= hits && (forall k :: k in up ==> k <= i) && j in hits
    requires i in own && j !in own && hits <= Below(n) && own <= Below(n)
    ensures var p, q := up - {i} + {j}, own - up + {i};
      && p !! q && p + q <= Below(n) && p <= hits && q <= own && |p| == |up| && |q| == |own - up| + 1
  {
    Replaced(up, i, j);
    assert i !in own - up;
  }

  /** Copies of `a` and then of `b` for the given places, and clicks for the other targets, pair off. */
  lemma Arranged(hit: Hit, a: Click, b: Click, targets: seq<Target>, p: set<nat>, q: set<nat>)
    returns (clicks: seq<Click>)
    requires AllHittable(hit, targets) && OnImage(a) && OnImage(b)
    requires p !! q && p + q <= Below(|targets|) && p <= HitBy(hit, a, targets) && q <= HitBy(hit, b, targets)
    ensures |clicks| == |targets| && Pairs(hit, clicks, targets)
    ensures |p| + |q| <= |clicks| && clicks[..|p| + |q|] == Copies(a, |p|) + Copies(b, |q|)
  {
    var e, f, g := ListThree(p, q, |targets|);
    CopiesHit(hit, a, targets, e);
    CopiesHit(hit, b, targets, f);
    var rest := ClicksFor(hit, targets, g);
    var cs := Copies(a, |e|) + Copies(b, |f|);
    HitEachAppend(hit, targets, Copies(a, |e|), e, Copies(b, |f|), f);
    HitEachAppend(hit, targets, cs, e + f, rest, g);
    clicks := cs + rest;
    assert Matching(hit, clicks, targets, e + f + g);
  }

  /** One copy of `b` too many behind the copies of `a`. */
  lemma TooMany(hit: Hit, cs: seq<Click>, a: Click, b: Click, targets: seq<Target>, i: nat, n: nat, m: nat)
    requires i < |targets| && OnImage(a) && n == |HitUpTo(hit, a, targets, i)|
    requires m > |HitBy(hit, b, targets) - HitUpTo(hit, a, targets, i)| && cs == Copies(a, n) + Copies(b, m)
    ensures Assign(hit, cs, targets).None?
  {
    assert cs[..n] == Copies(a, n) && cs[n..] == Copies(b, m);
    if Assign(hit, cs, targets).Some? { FewCopiesAfter(hit, cs, a, b, targets, i, n); }
  }

  lemma HitSets(hit: Hit, c: Click, targets: seq<Target>, i: nat)
    requires i < |targets|
    ensures var up, hits := HitUpTo(hit, c, targets, i), HitBy(hit, c, targets);
      && up <= hits <= Below(|targets|) && (forall k :: k in up ==> k <= i) && (i in up <==> hit(c, targets[i]))
    ensures forall k: nat :: k < |targets| ==> (k in HitBy(hit, c, targets) <==> hit(c, targets[k]))
  {
  }

  lemma RefusedAt(hit: Hit, a: Click, b: Click, targets: seq<Target>, i: nat, p: set<nat>, q: set<nat>)
    returns (clicks: seq<Click>)
    requires AllHittable(hit, targets) && OnImage(a) && OnImage(b) && i < |targets|
    requires p !! q && p + q <= Below(|targets|) && p <= HitBy(hit, a, targets) && q <= HitBy(hit, b, targets)
    requires |p| == |HitUpTo(hit, a, targets, i)|
    requires |q| == |HitBy(hit, b, targets) - HitUpTo(hit, a, targets, i)| + 1
    ensures |clicks| == |targets| && Pairs(hit, clicks, targets) && !Accepts(hit, clicks, targets)
  {
    clicks := Arranged(hit, a, b, targets, p, q);
    TooMany(hit, clicks[..|p| + |q|], a, b, targets, i, |p|, |q|);
    AssignStops(hit, clicks, targets, |p| + |q|);
  }

  /** If `a` hits targets i < j and `b` hits i and not j, copies of `a` and then of `b` are refused, though they pair
      off with clicks for the other targets. */
  lemma Refused(hit: Hit, a: Click, b: Click, targets: seq<Target>, i: nat, j: nat) returns (clicks: seq<Click>)
    requires AllHittable(hit, targets) && OnImage(a) && OnImage(b) && i < j < |targets|
    requires hit(a, targets[i]) && hit(a, targets[j]) && hit(b, targets[i]) && !hit(b, targets[j])
    ensures |clicks| == |targets| && Pairs(hit, clicks, targets) && !Accepts(hit, clicks, targets)
  {
    var up, own := HitUpTo(hit, a, targets, i), HitBy(hit, b, targets);
    HitSets(hit, a, targets, i);
    HitSets(hit, b, targets, i);
    Places(up, HitBy(hit, a, targets), own, i, j, |targets|);
    clicks := RefusedAt(hit, a, b, targets, i, up - {i} + {j}, own - up + {i});
  }

  /** The loop accepts exactly the clicks that pair off. */
  ghost predicate Right(hit: Hit, targets: seq<Target>) {
    forall clicks :: Accepts(hit, clicks, targets) <==> |clicks| == |targets| && Pairs(hit, clicks, targets)
  }

  /** No order of any clicks is accepted when another is refused. */
  ghost predicate OrderFree(hit: Hit, targets: seq<Target>) {
    forall clicks, other :: multiset(clicks) == multiset(other) ==>
      (Accepts(hit, clicks, targets) <==> Accepts(hit, other, targets))
  }

  lemma ClosedSuffices(hit: Hit, clicks: seq<Click>, targets: seq<Target>)
    requires Closed(hit, targets)
    ensures Accepts(hit, clicks, targets) <==> |clicks| == |targets| && Pairs(hit, clicks, targets)
  {
    if Accepts(hit, clicks, targets) { AssignIsMatching(hit, clicks, targets); }
    if m :| Matching(hit, clicks, targets, m) {
      forall c | c in clicks ensures OnImage(c) { }
      AcceptsIffBijection(hit, clicks, targets);
    }
  }

  /** A target that no click can hit is never matched. */
  lemma NeverPairs(hit: Hit, clicks: seq<Click>, targets: seq<Target>)
    requires !AllHittable(hit, targets) && |clicks| == |targets|
    ensures !Pairs(hit, clicks, targets) && !Accepts(hit, clicks, targets)
  {
    var t :| 0 <= t < |targets| && !CanHit(hit, targets[t]);
    forall m ensures !Matching(hit, clicks, targets, m) {
      if Matching(hit, clicks, targets, m) {
        MatchingIsOnto(hit, clicks, targets, m, t);
        assert false;
      }
    }
    if Accepts(hit, clicks, targets) {
      AssignIsMatching(hit, clicks, targets);
      assert false;
    }
  }

  /** The loop is right about all clicks if and only if the targets are closed, or one of them cannot be hit. */
  lemma RightExactly(hit: Hit, targets: seq<Target>)
    ensures Right(hit, targets) <==> Closed(hit, targets) || !AllHittable(hit, targets)
  {
    if Closed(hit, targets) {
      forall clicks ensures Accepts(hit, clicks, targets) <==> |clicks| == |targets| && Pairs(hit, clicks, targets) {
        ClosedSuffices(hit, clicks, targets);
      }
    } else if AllHittable(hit, targets) {
      var a, b :| OnImage(a) && OnImage(b) && !Follows(hit, targets, a, b);
      var i, j :| 0 <= i < j < |targets| && hit(a, targets[i]) && hit(a, targets[j]) && hit(b, targets[i])
                  && !hit(b, targets[j]);
      var clicks := Refused(hit, a, b, targets, i, j);
    } else {
      forall clicks ensures Accepts(hit, clicks, targets) <==> |clicks| == |targets| && Pairs(hit, clicks, targets) {
        if |clicks| == |targets| { NeverPairs(hit, clicks, targets); }
      }
    }
  }

  /** The order of the clicks never matters if and only if the loop is right about all clicks. */
  lemma OrderExactly(hit: Hit, targets: seq<Target>)
    ensures OrderFree(hit, targets) <==> Right(hit, targets)
  {
    if Right(hit, targets) {
      forall clicks, other | multiset(clicks) == multiset(other)
        ensures Accepts(hit, clicks, targets) <==> Accepts(hit, other, targets)
      {
        if Accepts(hit, clicks, targets) { PairsPermutes(hit, clicks, other, targets); }
        if Accepts(hit, other, targets) { PairsPermutes(hit, other, clicks, targets); }
      }
    }
    if OrderFree(hit, targets) {
      forall clicks ensures Accepts(hit, clicks, targets) <==> |clicks| == |targets| && Pairs(hit, clicks, targets) {
        SomeOrderAccepted(hit, clicks, targets);
        assert multiset(clicks) == multiset(clicks);
      }
    }
  }

  // ---- the nested loops

  method MatchClicks(hit: Hit, clicks: seq<Click>, targets: seq<Target>) returns (ok: bool)
    ensures ok == Accepts(hit, clicks, targets)
  {
    if |clicks| != |targets| {
      return false;
    }
    var matched := new bool[|targets|](_ => false);
    ghost var taken: seq<nat> := [];
    for n := 0 to |clicks|
      invariant Assign(hit, clicks[..n], targets) == Some(taken)
      invariant forall k :: 0 <= k < |targets| ==> (matched[k] <==> k in taken)
    {
      var point := clicks[n];
      assert clicks[..n + 1][..n] == clicks[..n];
      if point.x < 0 || point.y < 0 {
        AssignStops(hit, clicks, targets, n + 1);
        return false;
      }
      var found, index := false, 0;
      while index < |targets| && !found
        invariant 0 <= index <= |targets|
        invariant found ==> FirstFree(hit, point, targets, taken, 0) == Some(index)
        invariant !found ==> FirstFree(hit, point, targets, taken, 0) == FirstFree(hit, point, targets, taken, index)
        invariant forall k :: 0 <= k < |targets| ==> (matched[k] <==> k in taken || (found && k == index))
        decreases |targets| - index, !found
      {
        if !matched[index] && hit(point, targets[index]) {
          matched[index] := true;
          found := true;
        } else {
          index := index + 1;
        }
      }
      if !found {
        AssignStops(hit, clicks, targets, n + 1);
        return false;
      }
      taken := taken + [index];
    }
    assert clicks[..|clicks|] == clicks;
    ok := true;
  }

  /** Once the greedy loop has failed on a prefix it has failed. */
  lemma {:induction false} AssignStops(hit: Hit, clicks: seq<Click>, targets: seq<Target>, n: nat)
    requires n <= |clicks| && Assign(hit, clicks[..n], targets).None?
    ensures Assign(hit, clicks, targets).None?
  {
    if n < |clicks| {
      assert clicks[..|clicks| - 1][..n] == clicks[..n];
      AssignStops(hit, clicks[..|clicks| - 1], targets, n);
    } else {
      assert clicks[..n] == clicks;
    }
  }

  // ---- one verification per challenge

  const TTL := 300_000_000_000   // five minutes, in nanoseconds

  datatype Challenge = Challenge(targets: seq<Target>, created: int)

  /** `takeBehaviorCaptcha`: whatever the outcome, the challenge is gone afterwards. */
  function Take(store: map<string, Challenge>, id: string, now: int): Option<Challenge> {
    if id in store && now - store[id].created <= TTL then Some(store[id]) else None
  }

  /** Whether `verifyBehaviorCaptcha` gets as far as taking the challenge. */
  predicate Takes(id: string, clicks: seq<Click>) { id != "" && clicks != [] }

  function Verifies(hit: Hit, store: map<string, Challenge>, id: string, clicks: seq<Click>, now: int): bool {
    Takes(id, clicks) && Take(store, id, now).Some? && Accepts(hit, clicks, Take(store, id, now).value.targets)
  }

  /** The answer comes within five minutes and has one click for each target. */
  predicate InTime(challenge: Challenge, clicks: seq<Click>, now: int) {
    now - challenge.created <= 5 * 60 * 1_000_000_000 && |clicks| == |challenge.targets|
  }

  /** An accepted answer is in time and pairs off with the stored targets.  The converse holds for targets on which
      the greedy loop is right. */
  lemma VerifiedPairsOff(hit: Hit, store: map<string, Challenge>, id: string, clicks: seq<Click>, now: int)
    requires id in store
    ensures Verifies(hit, store, id, clicks, now) ==>
              InTime(store[id], clicks, now) && Pairs(hit, clicks, store[id].targets)
              && forall c :: c in clicks ==> c.x >= 0 && c.y >= 0
    ensures Closed(hit, store[id].targets) || !AllHittable(hit, store[id].targets) ==>
              (Verifies(hit, store, id, clicks, now) <==>
                 id != "" && clicks != [] && InTime(store[id], clicks, now) && Pairs(hit, clicks, store[id].targets))
  {
    if Accepts(hit, clicks, store[id].targets) { AssignIsMatching(hit, clicks, store[id].targets); }
    RightExactly(hit, store[id].targets);
  }

  class CaptchaStore {
    var challenges: map<string, Challenge>

    constructor ()
      ensures challenges == map[]
    {
      challenges := map[];
    }

    method Store(id: string, challenge: Challenge)
      modifies this
      ensures challenges == old(challenges)[id := challenge]
    {
      challenges := challenges[id := challenge];
    }

    method LoadAndDelete(id: string, now: int) returns (challenge: Option<Challenge>)
      modifies this
      ensures challenge == Take(old(challenges), id, now)
      ensures challenges == old(challenges) - {id}
    {
      challenge := None;
      if id in challenges {
        if now - challenges[id].created <= TTL {
          challenge := Some(challenges[id]);
        }
        challenges := challenges - {id};
      }
    }

    method Verify(hit: Hit, id: string, clicks: seq<Click>, now: int) returns (ok: bool)
      modifies this
      ensures ok == Verifies(hit, old(challenges), id, clicks, now)
      ensures ok ==> id in old(challenges) && InTime(old(challenges)[id], clicks, now)
                     && Pairs(hit, clicks, old(challenges)[id].targets)
                     && forall c :: c in clicks ==> c.x >= 0 && c.y >= 0
      ensures id in old(challenges)
              && (Closed(hit, old(challenges)[id].targets) || !AllHittable(hit, old(challenges)[id].targets)) ==>
                (ok <==> id != "" && clicks != [] && InTime(old(challenges)[id], clicks, now)
                         && Pairs(hit, clicks, old(challenges)[id].targets))
      ensures challenges == if id != "" && clicks != [] then old(challenges) - {id} else old(challenges)
    {
      if id in challenges { VerifiedPairsOff(hit, challenges, id, clicks, now); }
      if id == "" || |clicks| == 0 {
        return false;
      }
      var challenge := LoadAndDelete(id, now);
      if challenge.None? {
        return false;
      }
      ok := MatchClicks(hit, clicks, challenge.value.targets);
    }
  }

  datatype Event = Stored(id: string, challenge: Challenge) | Checked(id: string, clicks: seq<Click>, now: int)

  /** The store, with the event that put each challenge there, and the events whose challenge was used up
      (`consumed`) or accepted. */
  datatype History = History(store: map<string, Challenge>, origin: map<string, nat>, consumed: seq<nat>,
                             accepted: seq<nat>)

  function Replay(hit: Hit, events: seq<Event>): History {
    if events == [] then History(map[], map[], [], [])
    else
      var n := |events| - 1;
      var h := Replay(hit, events[..n]);
      match events[n]
      case Stored(id, challenge) => h.(store := h.store[id := challenge], origin := h.origin[id := n])
      case Checked(id, clicks, now) =>
        if !Takes(id, clicks) || id !in h.store || id !in h.origin then h
        else h.(store := h.store - {id}, origin := h.origin - {id}, consumed := h.consumed + [h.origin[id]],
                accepted := if Verifies(hit, h.store, id, clicks, now) then h.accepted + [h.origin[id]] else h.accepted)
  }

  /** A challenge in the store is the one its event put there, and that event was not consumed. */
  ghost predicate Live(h: History, events: seq<Event>) {
    && h.store.Keys == h.origin.Keys
    && (forall id :: id in h.origin ==>
          h.origin[id] < |events| && h.origin[id] !in h.consumed && events[h.origin[id]] == Stored(id, h.store[id]))
    && (forall i :: 0 <= i < |h.consumed| ==> h.consumed[i] < |events|)
  }

  /** Over every run, each stored challenge is used up by at most one verification, and accepted at most
      once; an accepted challenge was used up. */
  lemma {:induction false} ConsumedOnce(hit: Hit, events: seq<Event>)
    ensures var h := Replay(hit, events);
      && Live(h, events) && Distinct(h.consumed) && Distinct(h.accepted)
      && forall x :: x in h.accepted ==> x in h.consumed
  {
    if events != [] {
      ConsumedOnce(hit, events[..|events| - 1]);
    }
  }

  /** No event after `x` and before `n` stores under the identifier of `x` or answers it with clicks. */
  ghost predicate Untouched(events: seq<Event>, x: nat, n: nat)
    requires x < |events| && n <= |events|
  {
    forall k :: x < k < n && events[k].id == events[x].id ==>
      events[k].Checked? && (events[k].id == "" || events[k].clicks == [])
  }

  lemma UntouchedPrefix(events: seq<Event>, x: nat, n: nat)
    requires x < n <= |events| && Untouched(events, x, n)
    ensures Untouched(events[..n], x, n) && events[..n][x] == events[x]
    ensures x < n - 1 ==> Untouched(events[..n - 1], x, n - 1)
  {
  }

  /** Event `j` is the first answer to the challenge that event `x` stored. */
  ghost predicate Answers(events: seq<Event>, x: nat, j: nat) {
    && x < j < |events| && events[x].Stored? && events[j].Checked?
    && events[j].id == events[x].id != "" && events[j].clicks != [] && Untouched(events, x, j)
  }

  lemma {:induction false} StillThere(hit: Hit, events: seq<Event>, x: nat)
    requires x < |events| && events[x].Stored? && Untouched(events, x, |events|)
    ensures var h := Replay(hit, events); var id := events[x].id;
      id in h.store && h.store[id] == events[x].challenge && id in h.origin && h.origin[id] == x
  {
    var n := |events| - 1;
    if x < n {
      UntouchedPrefix(events, x, |events|);
      StillThere(hit, events[..n], x);
    }
  }

  /** What the first answer decides about the challenge it takes. */
  ghost predicate Decided(hit: Hit, h: History, events: seq<Event>, x: nat, j: nat)
    requires Answers(events, x, j)
  {
    && x in h.consumed
    && (x in h.accepted <==> Verifies(hit, map[events[x].id := events[x].challenge], events[x].id, events[j].clicks,
                                      events[j].now))
  }

  lemma VerifiesOwn(hit: Hit, store: map<string, Challenge>, id: string, clicks: seq<Click>, now: int)
    requires id in store
    ensures Verifies(hit, store, id, clicks, now) == Verifies(hit, map[id := store[id]], id, clicks, now)
  {
  }

  lemma AnswerTakes(hit: Hit, events: seq<Event>, n: nat, before: History, x: nat)
    requires |events| == n + 1 && events[n].Checked? && Takes(events[n].id, events[n].clicks)
    requires before == Replay(hit, events[..n]) && events[n].id in before.store
    requires events[n].id in before.origin && before.origin[events[n].id] == x
    ensures var h := Replay(hit, events);
      && h.consumed == before.consumed + [x]
      && h.accepted == before.accepted +
           (if Verifies(hit, before.store, events[n].id, events[n].clicks, events[n].now) then [x] else [])
  {
  }

  lemma AnswerDecides(hit: Hit, events: seq<Event>, x: nat, n: nat)
    requires Answers(events, x, n) && |events| == n + 1
    ensures Decided(hit, Replay(hit, events), events, x, n)
  {
    var before := Replay(hit, events[..n]);
    UntouchedPrefix(events, x, n);
    StillThere(hit, events[..n], x);
    ConsumedOnce(hit, events[..n]);
    assert x !in before.consumed && x !in before.accepted;
    AnswerTakes(hit, events, n, before, x);
    VerifiesOwn(hit, before.store, events[x].id, events[n].clicks, events[n].now);
  }

  lemma {:induction false} StaysDecided(hit: Hit, events: seq<Event>, x: nat, j: nat)
    requires Answers(events, x, j)
    ensures Decided(hit, Replay(hit, events), events, x, j)
  {
    var n := |events| - 1;
    if j == n {
      AnswerDecides(hit, events, x, n);
    } else {
      assert Answers(events[..n], x, j);
      StaysDecided(hit, events[..n], x, j);
      ConsumedOnce(hit, events[..n]);
    }
  }

  /**
   Over every run: a stored challenge is decided by the first answer after it, if nothing was stored under
   its identifier in between, and by no other.  It is used up by that answer, and accepted only if the
   answer is in time and pairs off with the stored targets; where the greedy loop is right, exactly then.
   */
  lemma FirstAnswerDecides(hit: Hit, events: seq<Event>, x: nat, j: nat)
    requires Answers(events, x, j)
    ensures var h := Replay(hit, events); var c, clicks := events[x].challenge, events[j].clicks;
      && x in h.consumed
      && (x in h.accepted ==> InTime(c, clicks, events[j].now) && Pairs(hit, clicks, c.targets))
      && (Closed(hit, c.targets) || !AllHittable(hit, c.targets) ==>
            (x in h.accepted <==> InTime(c, clicks, events[j].now) && Pairs(hit, clicks, c.targets)))
  {
    StaysDecided(hit, events, x, j);
    VerifiedPairsOff(hit, map[events[x].id := events[x].challenge], events[x].id, events[j].clicks, events[j].now);
  }

  lemma {:induction false} OriginUntouched(hit: Hit, events: seq<Event>, id: string)
    requires id in Replay(hit, events).origin
    ensures var x := Replay(hit, events).origin[id];
      x < |events| && events[x].Stored? && events[x].id == id && Untouched(events, x, |events|)
  {
    ConsumedOnce(hit, events);
    var n := |events| - 1;
    if Replay(hit, events).origin[id] < n {
      OriginUntouched(hit, events[..n], id);
    }
  }

  /** Every challenge that was used up had such a first answer. */
  lemma {:induction false} ConsumedWasAnswered(hit: Hit, events: seq<Event>, x: nat) returns (j: nat)
    requires x in Replay(hit, events).consumed
    ensures Answers(events, x, j)
  {
    var n := |events| - 1;
    var before := Replay(hit, events[..n]);
    if x in before.consumed {
      j := ConsumedWasAnswered(hit, events[..n], x);
    } else {
      j := n;
      OriginUntouched(hit, events[..n], events[n].id);
    }
  }

  /** So every accepted challenge was answered in time with clicks that pair off with its targets. */
  lemma AcceptedPairsOff(hit: Hit, events: seq<Event>, x: nat) returns (j: nat)
    requires x in Replay(hit, events).accepted
    ensures Answers(events, x, j) && InTime(events[x].challenge, events[j].clicks, events[j].now)
    ensures Pairs(hit, events[j].clicks, events[x].challenge.targets)
  {
    ConsumedOnce(hit, events);
    j := ConsumedWasAnswered(hit, events, x);
    FirstAnswerDecides(hit, events, x, j);
  }
}
