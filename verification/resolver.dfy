/** Expectation resolver: `list_expected_containers`, the union of the
    service names every manifest's project declares. */
module Resolver {
  import opened Common
  import PyText

  /** What a captured shell command produced: its stdout, or a non-zero exit. */
  datatype CommandOutcome = Succeeded(stdout: string) | Failed

  /** The service names one successful `docker compose ps --services` reports:
      `run_command` strips its stdout, and the stripped text is split into
      lines. No name holds a line boundary, and an output reports nothing
      exactly when it is all whitespace. */
  function ServiceNames(stdout: string): (names: set<string>)
    ensures forall n :: n in names ==> PyText.NoLineBreak(n)
    ensures names == {} <==> PyText.AllSpace(stdout)
  {
    var lines := PyText.SplitLines(PyText.Strip(stdout));
    var names := set line | line in lines;
    assert lines != [] ==> lines[0] in names;
    names
  }

  /** Query outcome `o` succeeded and reported `name`. */
  predicate Reports(o: CommandOutcome, name: string)
  {
    o.Succeeded? && name in ServiceNames(o.stdout)
  }

  function Reporting(name: string): CommandOutcome -> bool
  {
    o => Reports(o, name)
  }

  predicate HasFailed(o: CommandOutcome)
  {
    o.Failed?
  }

  /** Some element of `xs` satisfies `p`. */
  predicate AnyOf<T>(xs: seq<T>, p: T -> bool)
  {
    exists i :: 0 <= i < |xs| && p(xs[i])
  }

  lemma AnyOfStep<T>(xs: seq<T>, p: T -> bool)
    requires xs != []
    ensures AnyOf(xs, p) <==> p(xs[0]) || AnyOf(xs[1..], p)
  {
    var rest := xs[1..];
    if AnyOf(xs, p) && !p(xs[0]) {
      var i :| 0 <= i < |xs| && p(xs[i]);
      assert rest[i - 1] == xs[i];
    }
    if AnyOf(rest, p) {
      var i :| 0 <= i < |rest| && p(rest[i]);
      assert xs[i + 1] == rest[i];
    }
  }

  /** One of the queries in `outs` succeeded and reported `name`. */
  predicate Declares(outs: seq<CommandOutcome>, name: string)
  {
    AnyOf(outs, Reporting(name))
  }

  /** One of the queries in `outs` failed. */
  predicate AnyFailed(outs: seq<CommandOutcome>)
  {
    AnyOf(outs, HasFailed)
  }

  lemma QueriesStep(outs: seq<CommandOutcome>)
    requires outs != []
    ensures AnyFailed(outs) <==> outs[0].Failed? || AnyFailed(outs[1..])
    ensures forall name :: Declares(outs, name) <==> Reports(outs[0], name) || Declares(outs[1..], name)
  {
    AnyOfStep(outs, HasFailed);
    forall name
      ensures Declares(outs, name) <==> Reports(outs[0], name) || Declares(outs[1..], name)
    {
      AnyOfStep(outs, Reporting(name));
    }
  }

  /** The loop of `list_expected_containers` from accumulated set `acc` on:
      each stripped output's lines are added in turn; a failed query makes
      `run_command` return `None`, and `None.splitlines()` raises, which is
      `None` here. */
  function Accumulate(acc: set<string>, outs: seq<CommandOutcome>): (r: Option<set<string>>)
    ensures r.None? <==> AnyFailed(outs)
    ensures r.Some? ==> forall name :: name in r.value <==> name in acc || Declares(outs, name)
    decreases |outs|
  {
    if outs == [] then Some(acc)
    else
      QueriesStep(outs);
      match outs[0]
      case Failed => None
      case Succeeded(stdout) => Accumulate(acc + ServiceNames(stdout), outs[1..])
  }

  /** The expected set for manifests whose queries answered `outs`, in
      manifest order: exactly the names some query reported, or `None` (the
      call raises) when any query failed. */
  function ExpectedContainers(outs: seq<CommandOutcome>): (r: Option<set<string>>)
    ensures r.None? <==> AnyFailed(outs)
    ensures r.Some? ==> forall name :: name in r.value <==> Declares(outs, name)
  {
    Accumulate({}, outs)
  }

  /** A query that succeeded but reported no service. */
  predicate Silent(o: CommandOutcome)
  {
    o.Succeeded? && ServiceNames(o.stdout) == {}
  }

  lemma AnyOfCovers<T>(a: seq<T>, b: seq<T>, p: T -> bool)
    requires forall x :: x in a && p(x) ==> x in b
    ensures AnyOf(a, p) ==> AnyOf(b, p)
  {
    if AnyOf(a, p) {
      var i :| 0 <= i < |a| && p(a[i]);
      assert a[i] in b;
      var j :| 0 <= j < |b| && b[j] == a[i];
    }
  }

  lemma Covers(a: seq<CommandOutcome>, b: seq<CommandOutcome>)
    requires forall o :: o in a ==> o in b || Silent(o)
    ensures AnyFailed(a) ==> AnyFailed(b)
    ensures forall name :: Declares(a, name) ==> Declares(b, name)
  {
    AnyOfCovers(a, b, HasFailed);
    forall name
      ensures Declares(a, name) ==> Declares(b, name)
    {
      forall o | o in a && Reporting(name)(o)
        ensures o in b
      {
        assert !Silent(o);
      }
      AnyOfCovers(a, b, Reporting(name));
    }
  }

  /** Two manifest lists whose queries answered alike, up to order and to
      queries that reported nothing, have the same expected set. */
  lemma SameExpected(a: seq<CommandOutcome>, b: seq<CommandOutcome>)
    requires forall o :: o in a ==> o in b || Silent(o)
    requires forall o :: o in b ==> o in a || Silent(o)
    ensures ExpectedContainers(a) == ExpectedContainers(b)
  {
    Covers(a, b);
    Covers(b, a);
    var ra, rb := ExpectedContainers(a), ExpectedContainers(b);
    if ra.Some? {
      assert ra.value == rb.value;
    }
  }

  /** A single manifest's query contributes exactly the names it reports. */
  lemma ExpectedOfOne(stdout: string)
    ensures ExpectedContainers([Succeeded(stdout)]) == Some(ServiceNames(stdout))
  {
    var outs := [Succeeded(stdout)];
    var r := ExpectedContainers(outs);
    assert !AnyFailed(outs);
    forall name
      ensures name in r.value <==> name in ServiceNames(stdout)
    {
      if name in ServiceNames(stdout) {
        assert Reports(outs[0], name);
      }
    }
    assert r.value == ServiceNames(stdout);
  }

  /** The expected set does not depend on the order manifests are found in. */
  lemma ExpectedOrderIndependent(a: seq<CommandOutcome>, b: seq<CommandOutcome>)
    requires multiset(a) == multiset(b)
    ensures ExpectedContainers(a) == ExpectedContainers(b)
  {
    assert forall o :: o in a <==> o in multiset(a);
    assert forall o :: o in b <==> o in multiset(b);
    SameExpected(a, b);
  }

  /** A manifest whose query printed only whitespace adds nothing to the
      expected set, wherever it comes in the order. */
  lemma BlankOutputAddsNothing(a: seq<CommandOutcome>, blank: string, b: seq<CommandOutcome>)
    requires PyText.AllSpace(blank)
    ensures ExpectedContainers(a + [Succeeded(blank)] + b) == ExpectedContainers(a + b)
  {
    SameExpected(a + [Succeeded(blank)] + b, a + b);
  }

  /** An output listing service names one per line, possibly with surrounding
      whitespace such as the trailing newline, yields exactly those names. */
  lemma ServiceNamesOfListing(names: seq<string>, pre: string, post: string)
    requires forall k :: 0 <= k < |names| ==> names[k] != [] && PyText.NoSpace(names[k])
    requires PyText.AllSpace(pre) && PyText.AllSpace(post)
    ensures ServiceNames(pre + PyText.JoinLines(names) + post) == set n | n in names
  {
    StripOfListing(names, pre, post);
    LinesOfListing(names);
  }

  lemma StripOfListing(names: seq<string>, pre: string, post: string)
    requires forall k :: 0 <= k < |names| ==> names[k] != [] && PyText.NoSpace(names[k])
    requires PyText.AllSpace(pre) && PyText.AllSpace(post)
    ensures PyText.Strip(pre + PyText.JoinLines(names) + post) == PyText.JoinLines(names)
  {
    if names != [] {
      JoinEnds(names);
    }
    PyText.StripSurrounded(pre, PyText.JoinLines(names), post);
  }

  lemma LinesOfListing(names: seq<string>)
    requires forall k :: 0 <= k < |names| ==> names[k] != [] && PyText.NoSpace(names[k])
    ensures PyText.SplitLines(PyText.JoinLines(names)) == names
  {
    forall k | 0 <= k < |names|
      ensures PyText.NoLineBreak(names[k])
    {
      PyText.NoSpaceNoLineBreak(names[k]);
    }
    PyText.SplitJoinLines(names);
  }

  lemma {:induction false} JoinEnds(names: seq<string>)
    requires names != []
    requires forall k :: 0 <= k < |names| ==> names[k] != [] && PyText.NoSpace(names[k])
    ensures var text := PyText.JoinLines(names);
      text != [] && !PyText.IsSpace(text[0]) && !PyText.IsSpace(text[|text| - 1])
    decreases |names|
  {
    var text := PyText.JoinLines(names);
    if |names| == 1 {
      assert text == names[0];
    } else {
      var rest := PyText.JoinLines(names[1..]);
      JoinEnds(names[1..]);
      assert text == names[0] + "\n" + rest;
      assert text[0] == names[0][0];
      assert text[|text| - 1] == rest[|rest| - 1];
    }
  }
}
