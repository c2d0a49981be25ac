/** Drift enforcer: the decision `stop_unexpected_containers` makes for each
    container the host lists. */
module Enforcer {
  import opened Common
  import PyText
  import Actions

  /** What `containers.get(id)` gave back: the container's label map (Python's
      `None` or a dict), or an exception. */
  datatype Lookup = Found(labels: Option<map<string, string>>) | LookupError

  /** One entry of `containers.list(all=True)`: the listed name and id, and
      what looking the container up by that id produced. */
  datatype Listed = Listed(name: string, id: string, lookup: Lookup)

  /** How one container is dealt with. */
  datatype Verdict =
    | KeptByManifest   // its name is declared by a manifest
    | KeptByLabel      // its `dockpatrol_prune` label asks to keep it
    | Stopped          // `docker stop` is issued for it
    | Skipped          // processing raised; the error is logged and the loop goes on

  const PruneLabelKey: string := "dockpatrol_prune"

  /** The lower-cased label values that exempt a container. */
  const KeepValues: seq<string> := ["false", "off", "0", "no"]

  /** The raw `dockpatrol_prune` value: the mapped value when the labels are
      a map holding the key, `""` when they are `None`, empty or lack it. */
  function LabelValue(labels: Option<map<string, string>>): (v: string)
    ensures labels.Some? && PruneLabelKey in labels.value ==> v == labels.value[PruneLabelKey]
    ensures labels.None? || PruneLabelKey !in labels.value ==> v == ""
  {
    match labels
    case None => ""
    case Some(m) => if m != map[] && PruneLabelKey in m then m[PruneLabelKey] else ""
  }

  /** `v` spells one of the keep values in any mix of letter case. */
  predicate IsExemptValue(v: string)
  {
    exists word :: word in KeepValues && PyText.EqualsIgnoringCase(v, word)
  }

  /** Lower-casing the label and looking it up among the keep values is a
      case-insensitive match against them. */
  lemma KeepMatchIgnoresCase(v: string)
    ensures PyText.AsciiLower(v) in KeepValues <==> IsExemptValue(v)
  {
    forall word | word in KeepValues
      ensures PyText.AsciiLower(v) == word <==> PyText.EqualsIgnoringCase(v, word)
    {
      PyText.LowerMatchesIgnoringCase(v, word);
    }
  }

  /** Upper-case and mixed-case spellings exempt as well. */
  lemma ExemptSpellings()
    ensures IsExemptValue("FALSE") && IsExemptValue("No") && IsExemptValue("oFF") && IsExemptValue("0")
  {
    assert PyText.EqualsIgnoringCase("FALSE", "false");
    assert PyText.EqualsIgnoringCase("No", "no");
    assert PyText.EqualsIgnoringCase("oFF", "off");
    assert PyText.EqualsIgnoringCase("0", "0");
  }

  /** `true`, an absent label and a keep word with a trailing blank do not
      exempt: the value is compared whole, without stripping. */
  lemma NonExemptSpellings()
    ensures !IsExemptValue("true") && !IsExemptValue("") && !IsExemptValue("nO ")
  {
    assert !PyText.EqualsIgnoringCase("nO ", "off") by {
      assert PyText.LowerChar("nO "[0]) != PyText.LowerChar("off"[0]);
    }
  }

  /** The container is stopped: it was looked up, no manifest declares its
      name, and its label does not exempt it. */
  predicate ShouldStop(c: Listed, expected: set<string>)
  {
    c.lookup.Found? && c.name !in expected && !IsExemptValue(LabelValue(c.lookup.labels))
  }

  /** The body of the per-container `try`: look the container up, lower-case
      its label, then test manifest membership before the label. */
  function Classify(c: Listed, expected: set<string>): (v: Verdict)
    ensures v == Skipped <==> c.lookup.LookupError?
    ensures v == KeptByManifest <==> c.lookup.Found? && c.name in expected
    ensures v == KeptByLabel <==>
      c.lookup.Found? && c.name !in expected && IsExemptValue(LabelValue(c.lookup.labels))
    ensures v == Stopped <==> ShouldStop(c, expected)
  {
    match c.lookup
    case LookupError => Skipped
    case Found(labels) =>
      var pruneLabel := PyText.AsciiLower(LabelValue(labels));
      KeepMatchIgnoresCase(LabelValue(labels));
      if c.name in expected then KeptByManifest
      else if pruneLabel in KeepValues then KeptByLabel
      else Stopped
  }

  /** Some listed container with id `id` should be stopped. */
  predicate ShouldStopId(cs: seq<Listed>, expected: set<string>, id: string)
  {
    exists i :: 0 <= i < |cs| && cs[i].id == id && ShouldStop(cs[i], expected)
  }

  lemma ShouldStopIdStep(cs: seq<Listed>, expected: set<string>)
    requires cs != []
    ensures forall id :: ShouldStopId(cs, expected, id) <==>
      (cs[0].id == id && ShouldStop(cs[0], expected)) || ShouldStopId(cs[1..], expected, id)
  {
    assert forall i :: 1 <= i < |cs| ==> cs[i] == cs[1..][i - 1];
  }

  /** The ids `docker stop` is issued for, one pass over the listing in order:
      an id is stopped exactly when some listed container with that id should
      be stopped. */
  function StopsOf(cs: seq<Listed>, expected: set<string>): (ids: seq<string>)
    ensures forall id :: id in ids <==> ShouldStopId(cs, expected, id)
    ensures |ids| <= |cs|
  {
    if cs == [] then []
    else
      ShouldStopIdStep(cs, expected);
      (if Classify(cs[0], expected) == Stopped then [cs[0].id] else []) + StopsOf(cs[1..], expected)
  }

  /** The enforcement pass as actions: only stops, and a stop for exactly the
      ids of the containers that should be stopped. */
  function Enforce(cs: seq<Listed>, expected: set<string>): (t: seq<Actions.Action>)
    ensures Actions.AllInPhase(t, 2)
    ensures forall id :: Actions.Stop(id) in t <==> ShouldStopId(cs, expected, id)
  {
    var ids := StopsOf(cs, expected);
    Actions.StopsOfIds(ids);
    Actions.StopAll(ids)
  }

  /** Each container's fate depends on that container alone: the pass over a
      listing is the pass over its first part followed by the pass over the
      rest. */
  lemma {:induction false} StopsOfAppend(a: seq<Listed>, b: seq<Listed>, expected: set<string>)
    ensures StopsOf(a + b, expected) == StopsOf(a, expected) + StopsOf(b, expected)
    decreases |a|
  {
    if a == [] {
      assert a + b == b;
    } else {
      var head := if Classify(a[0], expected) == Stopped then [a[0].id] else [];
      assert StopsOf(a + b, expected) == head + StopsOf(a[1..] + b, expected) by {
        assert (a + b)[0] == a[0];
        assert (a + b)[1..] == a[1..] + b;
      }
      StopsOfAppend(a[1..], b, expected);
    }
  }

  predicate UniqueIds(cs: seq<Listed>)
  {
    forall i, j :: 0 <= i < j < |cs| ==> cs[i].id != cs[j].id
  }

  /** With the distinct ids the daemon lists, every container that should be
      stopped gets exactly one `docker stop` and every other none: not one
      whose name a manifest declares, not one exempted by its label, not one
      whose lookup raised. */
  lemma {:induction false} StopsEachOnce(cs: seq<Listed>, expected: set<string>)
    requires UniqueIds(cs)
    ensures forall i :: 0 <= i < |cs| ==>
      multiset(StopsOf(cs, expected))[cs[i].id] == if ShouldStop(cs[i], expected) then 1 else 0
    decreases |cs|
  {
    if cs != [] {
      var rest := cs[1..];
      StopsEachOnce(rest, expected);
      assert StopsOf(cs, expected)
        == (if Classify(cs[0], expected) == Stopped then [cs[0].id] else []) + StopsOf(rest, expected);
      forall i | 0 <= i < |rest|
        ensures rest[i].id != cs[0].id
      {
        assert rest[i] == cs[i + 1];
      }
      assert cs[0].id !in StopsOf(rest, expected);
      forall i | 0 <= i < |cs|
        ensures multiset(StopsOf(cs, expected))[cs[i].id] == if ShouldStop(cs[i], expected) then 1 else 0
      {
        if i > 0 {
          assert cs[i] == rest[i - 1];
          assert cs[i].id != cs[0].id;
        }
      }
    }
  }

  /** A container whose lookup raises is passed over, and every container
      after it is still dealt with as if it had not been listed. */
  lemma FailureIsIsolated(a: seq<Listed>, c: Listed, b: seq<Listed>, expected: set<string>)
    requires c.lookup.LookupError?
    ensures StopsOf(a + [c] + b, expected) == StopsOf(a, expected) + StopsOf(b, expected)
  {
    assert StopsOf([c], expected) == [] by {
      assert [c][1..] == [];
      assert Classify(c, expected) == Skipped;
    }
    StopsOfAppend(a + [c], b, expected);
    StopsOfAppend(a, [c], expected);
  }

  /** Stops are issued in listing order: for two containers that are both
      stopped, the earlier one's stop comes first. */
  lemma StopsInListingOrder(cs: seq<Listed>, expected: set<string>, i: nat, j: nat)
    requires i < j < |cs|
    requires ShouldStop(cs[i], expected) && ShouldStop(cs[j], expected)
    ensures var ids := StopsOf(cs, expected);
      exists p, q :: 0 <= p < q < |ids| && ids[p] == cs[i].id && ids[q] == cs[j].id
  {
    var front, back := cs[..j], cs[j..];
    assert cs == front + back;
    StopsOfAppend(front, back, expected);
    assert front[i] == cs[i];
    var f := StopsOf(front, expected);
    assert cs[i].id in f;
    var p :| 0 <= p < |f| && f[p] == cs[i].id;
    assert back[0] == cs[j];
    assert StopsOf(back, expected) == [cs[j].id] + StopsOf(back[1..], expected);
    var ids := StopsOf(cs, expected);
    assert ids[p] == cs[i].id;
    assert ids[|f|] == cs[j].id;
  }
}
