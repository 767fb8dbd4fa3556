/** The keys of a multi-key channel as they are stored: the actions of `MultiKey` over the texts of `KeyText`. */
module KeyStorage {
  import opened Wrappers
  import opened GoText
  import opened KeyText
  import opened MultiKey

  function Lines(json: Json): Codec {
    Codec(text => GetKeys(json, text), text => CountKeys(json, text), keys => Join(keys, '\n'))
  }

  lemma LinesIsProper(json: Json)
    ensures Proper(Lines(json))
  {
    forall text ensures CountsAt(Lines(json), text) { CountIsLength(json, text); }
  }

  lemma RereadsLines(json: Json, keys: seq<string>)
    ensures Rereads(Lines(json), keys) <==> ReadsBack(json, keys)
  {
  }

  lemma PlainIsSafe(json: Json)
    ensures Safe(Lines(json), Plain)
  {
    forall keys | keys != [] && AllGood(Plain, keys) ensures Rereads(Lines(json), keys) {
      PlainReadsBack(json, keys);
      RereadsLines(json, keys);
    }
  }

  /** For plain keys and every sequence of actions, the text with its three maps represents what the record list
      holds. */
  lemma PlainRunRefines(json: Json, ch: Channel, actions: seq<Action>)
    requires ch.size == |GetKeys(json, ch.text)| && (GetKeys(json, ch.text) == [] ==> ch.text == "")
    requires forall k :: k in GetKeys(json, ch.text) ==> Plain(k)
    ensures View(Lines(json), Run(Lines(json), ch, actions)) == ReferenceRun(View(Lines(json), ch), actions)
  {
    LinesIsProper(json);
    PlainIsSafe(json);
    RunRefines(Lines(json), Plain, ch, actions);
  }

  /** For every channel whose size an update has computed and every sequence of actions: what is stored represents the
      intended records throughout if and only if every deletion leaves keys whose text reads back. */
  lemma StoredRunExactly(json: Json, ch: Channel, actions: seq<Action>)
    requires ch.size == CountKeys(json, ch.text)
    ensures AlwaysMeant(Lines(json), ch, actions) <==> AlwaysKeeps(Lines(json), ch, actions)
  {
    LinesIsProper(json);
    RunExactly(Lines(json), ch, actions);
  }

  /** Three lines with an empty one in the middle, as replacing the keys of a channel can store them, and the last one
      auto-disabled: deleting the first key loses the empty one too, and enables the last. */
  lemma EmptyKeyLost(json: Json, a: string, b: string)
    requires Plain(a) && Plain(b)
    ensures var codec := Lines(json);
      var ch := Channel(Join([a, "", b], '\n'), 3, map[2 := AUTO_DISABLED], map[], map[]);
      && View(codec, ch) == [Plainly(a, ENABLED), Plainly("", ENABLED), Plainly(b, AUTO_DISABLED)]
      && View(codec, Manage(codec, ch, DeleteKey(Some(0)))) == [Plainly(b, ENABLED)]
  {
    var ch := Channel(Join([a, "", b], '\n'), 3, map[2 := AUTO_DISABLED], map[], map[]);
    EmptyKeyStored(json, a, b);
    Joined("", b);
    assert "" + ['\n'] + b == ['\n'] + b;
    LeadingBreak(json, b);
    LinesIsProper(json);
    LastOfThreeEnabled(Lines(json), ch, a, "", b);
  }

  /** A JSON array of two keys, the second of which spans two lines and is auto-disabled: deleting the first key leaves
      the lines of the second as two keys, one auto-disabled and one enabled. */
  lemma BrokenKeySplits(json: Json, text: string, a: string, p: string, q: string)
    requires Plain(p) && Plain(q) && GetKeys(json, text) == [a, p + ['\n'] + q]
    ensures var codec := Lines(json); var ch := Channel(text, 2, map[1 := AUTO_DISABLED], map[], map[]);
      && View(codec, ch) == [Plainly(a, ENABLED), Plainly(p + ['\n'] + q, AUTO_DISABLED)]
      && View(codec, Manage(codec, ch, DeleteKey(Some(0)))) == [Plainly(p, AUTO_DISABLED), Plainly(q, ENABLED)]
  {
    var key := p + ['\n'] + q;
    Joined(key, "");
    Joined(p, q);
    PlainReadsBack(json, [p, q]);
    LinesIsProper(json);
    SecondOfTwoSplits(Lines(json), Channel(text, 2, map[1 := AUTO_DISABLED], map[], map[]), a, key, p, q);
  }
}
