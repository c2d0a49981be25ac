/** The side-effecting steps one dockpatrol process issues, in the order it
    issues them. Reads (listing containers, querying services, looking a
    container up) are not actions: they only feed the decisions. */
module Actions {

  datatype Action =
    | Fetch                                    // clone_or_update_repo
    | Decrypt(encrypted: string, plain: string) // sops on `.env.enc` into `.env`
    | ComposeUp(dir: string)                   // `docker compose up -d` in `dir`
    | Stop(id: string)                         // `docker stop <id>`
    | Prune                                    // `docker system prune -f`
    | Sleep(seconds: int)                      // time.sleep between cycles

  /** Position of an action's step within one cycle: fetch, launch, enforce, prune. */
  function Phase(a: Action): nat
  {
    match a
    case Fetch => 0
    case Decrypt(_, _) => 1
    case ComposeUp(_) => 1
    case Stop(_) => 2
    case Prune => 3
    case Sleep(_) => 4
  }

  /** Every action comes no earlier in the cycle than the one before it. */
  predicate PhaseOrdered(t: seq<Action>)
  {
    forall i, j :: 0 <= i < j < |t| ==> Phase(t[i]) <= Phase(t[j])
  }

  predicate AllInPhase(t: seq<Action>, p: nat)
  {
    forall k :: 0 <= k < |t| ==> Phase(t[k]) == p
  }

  /** An action whose step no element of `t` belongs to does not occur in `t`. */
  lemma AbsentByPhase(t: seq<Action>, a: Action)
    requires forall k :: 0 <= k < |t| ==> Phase(t[k]) != Phase(a)
    ensures multiset(t)[a] == 0
  {
    forall k | 0 <= k < |t|
      ensures t[k] != a
    {
    }
    assert a !in t;
  }

  /** An action heading a trace whose later actions all belong to later
      steps occurs exactly once. */
  lemma OnlyAtHead(t: seq<Action>)
    requires t != [] && forall k :: 0 < k < |t| ==> Phase(t[k]) > Phase(t[0])
    ensures multiset(t)[t[0]] == 1
  {
    var rest := t[1..];
    assert t == [t[0]] + rest;
    forall k | 0 <= k < |rest|
      ensures Phase(rest[k]) != Phase(t[0])
    {
      assert rest[k] == t[k + 1];
    }
    AbsentByPhase(rest, t[0]);
  }

  /** An action ending a trace whose earlier actions all belong to earlier
      steps occurs exactly once. */
  lemma OnlyAtEnd(t: seq<Action>)
    requires t != [] && forall k :: 0 <= k < |t| - 1 ==> Phase(t[k]) < Phase(t[|t| - 1])
    ensures multiset(t)[t[|t| - 1]] == 1
  {
    var body := t[..|t| - 1];
    assert t == body + [t[|t| - 1]];
    forall k | 0 <= k < |body|
      ensures Phase(body[k]) != Phase(t[|t| - 1])
    {
      assert body[k] == t[k];
    }
    AbsentByPhase(body, t[|t| - 1]);
  }

  /** One `docker stop` per id, in order. */
  function StopAll(ids: seq<string>): (t: seq<Action>)
    ensures |t| == |ids|
    ensures forall k :: 0 <= k < |t| ==> t[k] == Stop(ids[k])
  {
    if ids == [] then [] else [Stop(ids[0])] + StopAll(ids[1..])
  }

  /** The stops of `StopAll(ids)` are exactly the stops of the ids. */
  lemma StopsOfIds(ids: seq<string>)
    ensures forall id :: Stop(id) in StopAll(ids) <==> id in ids
  {
    var t := StopAll(ids);
    forall id | id in ids
      ensures Stop(id) in t
    {
      var k :| 0 <= k < |ids| && ids[k] == id;
      assert t[k] == Stop(id);
    }
  }

  /** The directories the `ComposeUp` actions of `t` start, in order. */
  function ComposeDirs(t: seq<Action>): seq<string>
  {
    if t == [] then []
    else (if t[0].ComposeUp? then [t[0].dir] else []) + ComposeDirs(t[1..])
  }

  lemma {:induction false} ComposeDirsAppend(a: seq<Action>, b: seq<Action>)
    ensures ComposeDirs(a + b) == ComposeDirs(a) + ComposeDirs(b)
    decreases |a|
  {
    if a == [] {
      assert a + b == b;
    } else {
      assert (a + b)[0] == a[0];
      assert (a + b)[1..] == a[1..] + b;
      ComposeDirsAppend(a[1..], b);
    }
  }

  /** For each `ComposeUp` of `t`, in order, whether a `Decrypt` comes
      directly before it. */
  function DecryptFlags(t: seq<Action>): seq<bool>
  {
    if t == [] then []
    else if t[0].ComposeUp? then [false] + DecryptFlags(t[1..])
    else if t[0].Decrypt? && |t| > 1 && t[1].ComposeUp? then [true] + DecryptFlags(t[2..])
    else DecryptFlags(t[1..])
  }

  /** A trace that does not end with a decrypt can be read on its own: the
      flags of the whole are the flags of its parts. */
  lemma {:induction false} DecryptFlagsAppend(a: seq<Action>, b: seq<Action>)
    requires a == [] || !a[|a| - 1].Decrypt?
    ensures DecryptFlags(a + b) == DecryptFlags(a) + DecryptFlags(b)
    decreases |a|
  {
    if a == [] {
      assert a + b == b;
    } else if a[0].Decrypt? && |a| > 1 && a[1].ComposeUp? {
      assert (a + b)[0] == a[0] && (a + b)[1] == a[1];
      assert (a + b)[2..] == a[2..] + b;
      DecryptFlagsAppend(a[2..], b);
    } else {
      assert (a + b)[0] == a[0];
      assert (a + b)[1..] == a[1..] + b;
      if a[0].Decrypt? {
        assert |a| > 1;
        assert (a + b)[1] == a[1];
      }
      DecryptFlagsAppend(a[1..], b);
    }
  }
}
