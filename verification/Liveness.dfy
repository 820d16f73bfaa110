/** Agent liveness: two maps updated by the results of health checks, which arrive in any order. */
module Liveness {
  import opened Collections

  const DEAD_AFTER_MISSES := 2

  datatype Node = Node(id: string, name: string, location: string, ip: string)

  /** One finished health check. */
  datatype Check = Check(id: string, ok: bool)

  datatype State = State(live: map<string, bool>, misses: map<string, int>)

  /** Go's zero-value reads. */
  function Live(s: State, id: string): bool {
    id in s.live && s.live[id]
  }

  function Misses(s: State, id: string): int {
    if id in s.misses then s.misses[id] else 0
  }

  function Step(s: State, c: Check): State {
    if c.ok then State(s.live[c.id := true], s.misses[c.id := 0])
    else
      var n := Misses(s, c.id) + 1;
      State(if n >= DEAD_AFTER_MISSES then s.live[c.id := false] else s.live, s.misses[c.id := n])
  }

  /** Every registered node starts out live. */
  function Started(nodes: seq<Node>): State {
    State(map i | 0 <= i < |nodes| :: nodes[i].id := true, map[])
  }

  ghost function After(s: State, checks: seq<Check>): State {
    if checks == [] then s else Step(After(s, checks[..|checks| - 1]), checks[|checks| - 1])
  }

  ghost predicate Registered(nodes: seq<Node>, id: string) {
    exists i :: 0 <= i < |nodes| && nodes[i].id == id
  }

  // ---------- Liveness is history ----------

  /** The results of one node's checks, in order. */
  ghost function Results(checks: seq<Check>, id: string): seq<bool> {
    if checks == [] then []
    else
      var rest, c := Results(checks[..|checks| - 1], id), checks[|checks| - 1];
      if c.id == id then rest + [c.ok] else rest
  }

  /** How many of the last results failed without a success after them. */
  ghost function FailuresAtEnd(results: seq<bool>): nat {
    if results == [] || results[|results| - 1] then 0 else FailuresAtEnd(results[..|results| - 1]) + 1
  }

  lemma {:induction false} StateIsHistory(nodes: seq<Node>, checks: seq<Check>, id: string)
    ensures var s, h := After(Started(nodes), checks), Results(checks, id);
            && Misses(s, id) == FailuresAtEnd(h)
            && (Registered(nodes, id) ==> (Live(s, id) <==> FailuresAtEnd(h) < DEAD_AFTER_MISSES))
            && (!Registered(nodes, id) ==> (Live(s, id) <==> FailuresAtEnd(h) < DEAD_AFTER_MISSES && true in h))
  {
    if checks != [] {
      var init, c := checks[..|checks| - 1], checks[|checks| - 1];
      StateIsHistory(nodes, init, id);
      var h := Results(init, id);
      if c.id == id {
        assert (h + [c.ok])[..|h|] == h;
        assert true in h + [c.ok] <==> true in h || c.ok;
      }
    }
  }

  ghost predicate LastTwoFailed(h: seq<bool>) {
    |h| >= 2 && !h[|h| - 1] && !h[|h| - 2]
  }

  /** After any run of checks a registered node is dead exactly when its last two checks both failed. */
  lemma DeadIffLastTwoFailed(nodes: seq<Node>, checks: seq<Check>, id: string)
    requires Registered(nodes, id)
    ensures var h := Results(checks, id);
            !Live(After(Started(nodes), checks), id) <==> LastTwoFailed(h)
  {
    StateIsHistory(nodes, checks, id);
    var h := Results(checks, id);
    if |h| >= 2 {
      var init := h[..|h| - 1];
      assert init[|init| - 1] == h[|h| - 2];
      assert FailuresAtEnd(h) == if h[|h| - 1] then 0 else FailuresAtEnd(init) + 1;
    }
  }

  // ---------- A round of concurrent checks ----------

  /** No node has both a success and a failure in the round. */
  ghost predicate Unmixed(round: seq<Check>) {
    forall id :: !(Check(id, true) in round && Check(id, false) in round)
  }

  /** What a run leaves for one node depends only on that node's results. */
  lemma {:induction false} OwnResultsDecide(s: State, x: seq<Check>, y: seq<Check>, id: string)
    requires Results(x, id) == Results(y, id)
    ensures SameFor(After(s, x), After(s, y), id)
  {
    OnlyOwn(s, x, id);
    OnlyOwn(s, y, id);
  }

  ghost predicate SameFor(s: State, t: State, id: string) {
    && (id in s.live <==> id in t.live) && (id in s.live ==> s.live[id] == t.live[id])
    && (id in s.misses <==> id in t.misses) && (id in s.misses ==> s.misses[id] == t.misses[id])
  }

  ghost function ChecksOf(results: seq<bool>, id: string): seq<Check> {
    seq(|results|, i requires 0 <= i < |results| => Check(id, results[i]))
  }

  /** For one node, the run of its own checks alone does the same. */
  lemma {:induction false} OnlyOwn(s: State, checks: seq<Check>, id: string)
    ensures SameFor(After(s, checks), After(s, ChecksOf(Results(checks, id), id)), id)
  {
    if checks != [] {
      var init, c := checks[..|checks| - 1], checks[|checks| - 1];
      OnlyOwn(s, init, id);
      if c.id == id {
        var own := ChecksOf(Results(init, id), id);
        assert ChecksOf(Results(checks, id), id) == own + [c];
        assert (own + [c])[..|own|] == own;
      }
    }
  }

  lemma {:induction false} ResultsMembers(checks: seq<Check>, id: string)
    ensures forall ok :: ok in Results(checks, id) <==> Check(id, ok) in checks
    ensures |Results(checks, id)| == multiset(checks)[Check(id, true)] + multiset(checks)[Check(id, false)]
  {
    if checks != [] {
      var init, c := checks[..|checks| - 1], checks[|checks| - 1];
      ResultsMembers(init, id);
      assert checks == init + [c];
      var h := Results(init, id);
      assert forall ok :: ok in h + [c.ok] <==> ok in h || ok == c.ok;
    }
  }

  /** Sequences of one and the same result are told apart by their lengths. */
  lemma ConstantResults(g: seq<bool>, h: seq<bool>)
    requires |g| == |h| && !(true in g && false in g)
    requires forall ok :: ok in g <==> ok in h
    ensures g == h
  {
    forall i | 0 <= i < |g|
      ensures g[i] == h[i]
    {
      assert g[i] in g && h[i] in h;
    }
  }

  lemma SameForAll(s: State, t: State)
    requires forall id :: SameFor(s, t, id)
    ensures s == t
  {
    forall id
      ensures (id in s.live <==> id in t.live) && (id in s.live ==> s.live[id] == t.live[id])
      ensures (id in s.misses <==> id in t.misses) && (id in s.misses ==> s.misses[id] == t.misses[id])
    {
      assert SameFor(s, t, id);
    }
    assert s.live == t.live && s.misses == t.misses;
  }

  /** A round whose nodes are checked once each, or more often but with one result each, leaves the
      same state in whatever order its results arrive. */
  lemma RoundConfluent(s: State, x: seq<Check>, y: seq<Check>)
    requires Unmixed(x) && multiset(x) == multiset(y)
    ensures After(s, x) == After(s, y)
  {
    forall id
      ensures SameFor(After(s, x), After(s, y), id)
    {
      ResultsMembers(x, id);
      ResultsMembers(y, id);
      assert forall c :: c in x <==> c in multiset(x);
      assert forall c :: c in y <==> c in multiset(y);
      ConstantResults(Results(x, id), Results(y, id));
      OwnResultsDecide(s, x, y, id);
    }
    SameForAll(After(s, x), After(s, y));
  }

  lemma UniqueIDsAreUnmixed(round: seq<Check>)
    requires forall i, j :: 0 <= i < j < |round| ==> round[i].id != round[j].id
    ensures Unmixed(round)
  {
  }

  /** With a node that both succeeds and fails in the round, the order of arrival shows. */
  lemma MixedRoundNotConfluent(s: State, round: seq<Check>, id: string) returns (x: seq<Check>, y: seq<Check>)
    requires Check(id, true) in round && Check(id, false) in round
    ensures multiset(x) == multiset(round) == multiset(y) && After(s, x) != After(s, y)
  {
    hide Step;
    var ok, bad := Check(id, true), Check(id, false);
    var rest1 := TakeOut(round, ok);
    assert bad in multiset(round);
    var rest := TakeOut(rest1, bad);
    x, y := rest + [ok] + [bad], rest + [bad] + [ok];
    LastTwo(s, rest, ok, bad);
    LastTwo(s, rest, bad, ok);
    LastResultShows(After(s, rest), id);
  }

  lemma TakeOut(checks: seq<Check>, c: Check) returns (rest: seq<Check>)
    requires c in multiset(checks)
    ensures multiset(checks) == multiset(rest) + multiset{c}
  {
    var i :| 0 <= i < |checks| && checks[i] == c;
    rest := checks[..i] + checks[i + 1..];
    assert checks == checks[..i] + [c] + checks[i + 1..];
  }

  lemma LastResultShows(s: State, id: string)
    ensures Misses(Step(Step(s, Check(id, true)), Check(id, false)), id) == 1
    ensures Misses(Step(Step(s, Check(id, false)), Check(id, true)), id) == 0
  {
  }

  lemma LastTwo(s: State, rest: seq<Check>, c: Check, d: Check)
    ensures After(s, rest + [c] + [d]) == Step(Step(After(s, rest), c), d)
  {
    assert (rest + [c] + [d])[..|rest| + 1] == rest + [c];
    assert (rest + [c])[..|rest|] == rest;
  }

  /** Every order of arrival leaves the same state exactly when no node has mixed results. */
  lemma ConfluentIffUnmixed(s: State, round: seq<Check>)
    ensures Unmixed(round)
            <==> forall x, y :: multiset(x) == multiset(round) == multiset(y) ==> After(s, x) == After(s, y)
  {
    if Unmixed(round) {
      forall x, y | multiset(x) == multiset(round) == multiset(y)
        ensures After(s, x) == After(s, y)
      {
        RoundConfluent(s, round, x);
        RoundConfluent(s, round, y);
      }
    } else {
      var id :| Check(id, true) in round && Check(id, false) in round;
      var x, y := MixedRoundNotConfluent(s, round, id);
    }
  }

  // ---------- The tracker ----------

  /** The nodes of the list whose last two checks did not both fail, in the list's order. */
  ghost function Responsive(nodes: seq<Node>, checks: seq<Check>): seq<Node> {
    if nodes == [] then []
    else
      var rest, n := Responsive(nodes[..|nodes| - 1], checks), nodes[|nodes| - 1];
      if LastTwoFailed(Results(checks, n.id)) then rest else rest + [n]
  }

  /** Each node whose last two checks did not both fail is listed exactly as often as in the list, in its
      order. */
  lemma {:induction false} ResponsiveInOrder(nodes: seq<Node>, checks: seq<Check>) returns (at: seq<nat>)
    ensures Positions(at, |nodes|)
    ensures forall i :: 0 <= i < |nodes| ==> (i in at <==> !LastTwoFailed(Results(checks, nodes[i].id)))
    ensures |Responsive(nodes, checks)| == |at|
    ensures forall k :: 0 <= k < |at| ==> Responsive(nodes, checks)[k] == nodes[at[k]]
  {
    hide LastTwoFailed, Results;
    at := [];
    if nodes != [] {
      var last := |nodes| - 1;
      at := ResponsiveInOrder(nodes[..last], checks);
      NextPosition(at, last);
      assert forall i :: 0 <= i < last ==> nodes[..last][i] == nodes[i];
      if !LastTwoFailed(Results(checks, nodes[last].id)) {
        at := at + [last];
      }
    }
  }

  class Tracker {
    const nodes: seq<Node>
    var live: map<string, bool>
    var misses: map<string, int>
    /** The checks recorded so far. */
    ghost var checks: seq<Check>

    function View(): State
      reads this
    {
      State(live, misses)
    }

    ghost predicate Valid()
      reads this
    {
      View() == After(Started(nodes), checks)
    }

    constructor (nodes: seq<Node>)
      ensures Valid() && this.nodes == nodes && checks == []
    {
      this.nodes := nodes;
      live, misses, checks := map[], map[], [];
      new;
      for i := 0 to |nodes|
        invariant live == map j | 0 <= j < i :: nodes[j].id := true
        invariant misses == map[] && checks == []
      {
        live := live[nodes[i].id := true];
      }
    }

    method RecordFailure(id: string)
      requires Valid()
      modifies this
      ensures Valid() && checks == old(checks) + [Check(id, false)]
    {
      assert (checks + [Check(id, false)])[..|checks|] == checks;
      var n := if id in misses then misses[id] + 1 else 1;
      misses := misses[id := n];
      if n >= DEAD_AFTER_MISSES {
        live := live[id := false];
      }
      checks := checks + [Check(id, false)];
    }

    method RecordSuccess(id: string)
      requires Valid()
      modifies this
      ensures Valid() && checks == old(checks) + [Check(id, true)]
    {
      assert (checks + [Check(id, true)])[..|checks|] == checks;
      misses, live := misses[id := 0], live[id := true];
      checks := checks + [Check(id, true)];
    }

    method IsLive(id: string) returns (r: bool)
      requires Valid()
      ensures Registered(nodes, id) ==> (r <==> !LastTwoFailed(Results(checks, id)))
      ensures !Registered(nodes, id) ==>
                var h := Results(checks, id);
                r <==> true in h && FailuresAtEnd(h) < DEAD_AFTER_MISSES
    {
      StateIsHistory(nodes, checks, id);
      if Registered(nodes, id) {
        DeadIffLastTwoFailed(nodes, checks, id);
      }
      r := id in live && live[id];
    }

    method LiveNodes() returns (out: seq<Node>)
      requires Valid()
      ensures out == Responsive(nodes, checks)
    {
      out := [];
      for i := 0 to |nodes|
        invariant out == Responsive(nodes[..i], checks)
      {
        DeadIffLastTwoFailed(nodes, checks, nodes[i].id);
        assert nodes[..i + 1][..i] == nodes[..i];
        if nodes[i].id in live && live[nodes[i].id] {
          out := out + [nodes[i]];
        }
      }
      assert nodes[..|nodes|] == nodes;
    }
  }
}
