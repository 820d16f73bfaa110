/** The global request semaphore and the one-request-per-address slots, whose table is collected
    while requests run. Times are in nanoseconds. */
module IpSlots {
  import opened Collections

  const MAX_REQUESTS := 30
  const STALE_AFTER: int := 1_800_000_000_000

  /** A one-place channel, full while somebody holds it, and the time of the last attempt on it. */
  datatype Slot = Slot(full: bool, last: int)

  type Slots = map<string, Slot>

  /** A request past the global gate: before its address gate, inside it, or past its release (or
      refusal) and about to give its global place back. */
  datatype Request = Gated(ip: string) | Running(ip: string, since: int) | Leaving(ip: string)

  datatype State = State(semaphore: nat, ipSem: Slots, requests: map<nat, Request>, now: int)

  datatype Event =
    | Wait(until: int)
    | Arrive(req: nat, ip: string)
    | TryIP(req: nat)
    | Release(req: nat)
    | Leave(req: nat)
    | Collect(ip: string, cutoff: int)

  /** acquireIP: create the slot if it is missing, stamp it, take it if it is free. */
  function Acquire(m: Slots, ip: string, now: int): (Slots, bool) {
    var free := !(ip in m && m[ip].full);
    (m[ip := Slot(true, now)], free)
  }

  /** releaseIP: empty whatever slot the address has now. */
  function Vacate(m: Slots, ip: string): Slots {
    if ip in m then m[ip := m[ip].(full := false)] else m
  }

  function CollectOne(m: Slots, ip: string, cutoff: int): Slots {
    if ip in m && m[ip].last < cutoff then m - {ip} else m
  }

  function Step(s: State, e: Event): State {
    match e
    case Wait(t) => if t >= s.now then s.(now := t) else s
    case Arrive(r, ip) =>
      if s.semaphore < MAX_REQUESTS && r !in s.requests
      then s.(semaphore := s.semaphore + 1, requests := s.requests[r := Gated(ip)])
      else s
    case TryIP(r) =>
      if r in s.requests && s.requests[r].Gated? then
        var ip := s.requests[r].ip;
        var (slots, ok) := Acquire(s.ipSem, ip, s.now);
        s.(ipSem := slots, requests := s.requests[r := if ok then Running(ip, s.now) else Leaving(ip)])
      else s
    case Release(r) =>
      if r in s.requests && s.requests[r].Running? then
        var ip := s.requests[r].ip;
        s.(ipSem := Vacate(s.ipSem, ip), requests := s.requests[r := Leaving(ip)])
      else s
    case Leave(r) =>
      if r in s.requests && s.requests[r].Leaving? && s.semaphore > 0
      then s.(semaphore := s.semaphore - 1, requests := s.requests - {r})
      else s
    case Collect(ip, cutoff) =>
      if cutoff <= s.now - STALE_AFTER then s.(ipSem := CollectOne(s.ipSem, ip, cutoff)) else s
  }

  const IDLE := State(0, map[], map[], 0)

  ghost function After(s: State, run: seq<Event>): State {
    if run == [] then s else Step(After(s, run[..|run| - 1]), run[|run| - 1])
  }

  // ---------- The promises ----------

  ghost predicate Holds(s: State, r: nat, ip: string) {
    r in s.requests && s.requests[r].Running? && s.requests[r].ip == ip
  }

  /** At most one holder per address. */
  ghost predicate Exclusive(s: State) {
    forall r, q, ip {:trigger Holds(s, r, ip), Holds(s, q, ip)} :: Holds(s, r, ip) && Holds(s, q, ip) ==> r == q
  }

  /** Every holder's slot is in the table, full, and stamped no earlier than it was taken; every full
      slot has a holder. */
  ghost predicate SlotsMatch(s: State) {
    && (forall r :: r in s.requests && s.requests[r].Running? ==>
          var q := s.requests[r];
          q.ip in s.ipSem && s.ipSem[q.ip].full && q.since <= s.ipSem[q.ip].last && q.since <= s.now)
    && FullHeld(s)
  }

  /** Every full slot has a holder. */
  ghost predicate FullHeld(s: State) {
    forall ip :: ip in s.ipSem && s.ipSem[ip].full ==> exists r :: Holds(s, r, ip)
  }

  /** The global places in use are the admitted, unfinished requests. */
  ghost predicate Counted(s: State) {
    s.semaphore == |s.requests| <= MAX_REQUESTS
  }

  /** Nobody has been holding an address for longer than a bound. */
  ghost predicate HeldAtMost(s: State, bound: int) {
    forall r :: r in s.requests && s.requests[r].Running? ==> s.now - s.requests[r].since <= bound
  }

  ghost predicate AlwaysHeldAtMost(s: State, run: seq<Event>, bound: int) {
    forall n :: 0 <= n <= |run| ==> HeldAtMost(After(s, run[..n]), bound)
  }

  // ---------- Conservation of global places ----------

  lemma CountedStep(s: State, e: Event)
    requires Counted(s)
    ensures Counted(Step(s, e))
  {
    hide Counted;
    match e
    case Arrive(r, ip) => ArriveCounted(s, r, ip);
    case TryIP(r) => TryOrReleaseCounted(s, e, r);
    case Release(r) => TryOrReleaseCounted(s, e, r);
    case Leave(r) => LeaveCounted(s, r);
    case _ => SameRequests(s, Step(s, e));
  }

  lemma SameRequests(s: State, s': State)
    requires Counted(s) && s'.semaphore == s.semaphore && s'.requests == s.requests
    ensures Counted(s')
  {
  }

  lemma ArriveCounted(s: State, r: nat, ip: string)
    requires Counted(s)
    ensures Counted(Step(s, Arrive(r, ip)))
  {
    KeysSize(s.requests, r, Gated(ip));
  }

  lemma LeaveCounted(s: State, r: nat)
    requires Counted(s)
    ensures Counted(Step(s, Leave(r)))
  {
    KeysSize(s.requests, r, Leaving(""));
  }

  lemma TryOrReleaseCounted(s: State, e: Event, r: nat)
    requires Counted(s) && (e == TryIP(r) || e == Release(r))
    ensures Counted(Step(s, e))
  {
    hide Acquire, Vacate, Counted;
    if r in s.requests {
      MovedOn(s, Step(s, e), r);
    }
  }

  lemma MovedOn(s: State, s': State, r: nat)
    requires Counted(s) && s'.semaphore == s.semaphore
    requires s'.requests == s.requests || (r in s.requests && r in s'.requests && s'.requests == s.requests[r := s'.requests[r]])
    ensures Counted(s')
  {
    if r in s'.requests {
      KeysSize(s.requests, r, s'.requests[r]);
    }
  }

  /** Over any run the global places in use are the admitted, unfinished requests, never more than 30;
      a request refused at its address gate is one of them until it leaves, so it leaks nothing. */
  lemma {:induction false} PlacesConserved(run: seq<Event>)
    ensures Counted(After(IDLE, run))
  {
    if run != [] {
      PlacesConserved(run[..|run| - 1]);
      CountedStep(After(IDLE, run[..|run| - 1]), run[|run| - 1]);
    }
  }

  // ---------- Exclusion ----------

  lemma TryIPStep(s: State, r: nat)
    requires Exclusive(s) && SlotsMatch(s)
    ensures Exclusive(Step(s, TryIP(r))) && SlotsMatch(Step(s, TryIP(r)))
  {
    if r in s.requests && s.requests[r].Gated? {
      var s' := Step(s, TryIP(r));
      assert forall q, x :: Holds(s', q, x) && q != r ==> Holds(s, q, x);
      forall x | x in s'.ipSem && s'.ipSem[x].full
        ensures exists q :: Holds(s', q, x)
      {
        if x in s.ipSem && s.ipSem[x].full {
          var q :| Holds(s, q, x);
          assert Holds(s', q, x);
        } else {
          assert Holds(s', r, x);
        }
      }
    }
  }

  /** A release empties the slot its own request filled, and nobody else's. */
  lemma ReleaseStep(s: State, r: nat)
    requires Exclusive(s) && SlotsMatch(s)
    ensures Exclusive(Step(s, Release(r))) && SlotsMatch(Step(s, Release(r)))
    ensures r in s.requests && s.requests[r].Running? ==>
              var ip := s.requests[r].ip;
              && ip in s.ipSem && s.ipSem[ip].full
              && !Step(s, Release(r)).ipSem[ip].full
              && (forall q :: q != r ==> !Holds(s, q, ip))
  {
    if r in s.requests && s.requests[r].Running? {
      var s', ip := Step(s, Release(r)), s.requests[r].ip;
      assert Holds(s, r, ip);
      assert forall q, x :: Holds(s', q, x) ==> Holds(s, q, x) && q != r;
      forall q | q in s'.requests && s'.requests[q].Running?
        ensures s.requests[q] == s'.requests[q] && s'.requests[q].ip != ip
      {
        assert Holds(s', q, s'.requests[q].ip);
      }
      forall x | x in s'.ipSem && s'.ipSem[x].full
        ensures exists q :: Holds(s', q, x)
      {
        var q :| Holds(s, q, x);
        assert Holds(s', q, x);
      }
    }
  }

  lemma OtherRequestsStep(s: State, e: Event)
    requires Exclusive(s) && SlotsMatch(s) && (e.Wait? || e.Arrive? || e.Leave?)
    ensures Exclusive(Step(s, e)) && SlotsMatch(Step(s, e))
  {
    var s' := Step(s, e);
    forall r, ip
      ensures Holds(s', r, ip) <==> Holds(s, r, ip)
    {
    }
  }

  /** Collection never takes the slot of a holder that has held it for at most half an hour. */
  lemma CollectStep(s: State, ip: string, cutoff: int)
    requires Exclusive(s) && SlotsMatch(s) && HeldAtMost(s, STALE_AFTER)
    ensures Exclusive(Step(s, Collect(ip, cutoff))) && SlotsMatch(Step(s, Collect(ip, cutoff)))
    ensures forall r, x :: Holds(s, r, x) ==> x in Step(s, Collect(ip, cutoff)).ipSem
  {
    var s' := Step(s, Collect(ip, cutoff));
    forall r, x
      ensures Holds(s', r, x) <==> Holds(s, r, x)
    {
    }
    forall x | x in s'.ipSem && s'.ipSem[x].full
      ensures exists r :: Holds(s', r, x)
    {
      var r :| Holds(s, r, x);
      assert Holds(s', r, x);
    }
  }

  ghost function Tick(ips: seq<string>, cutoff: int): seq<Event> {
    seq(|ips|, i requires 0 <= i < |ips| => Collect(ips[i], cutoff))
  }

  /** Visiting the table address by address, in whatever order, collects exactly the stale slots. */
  lemma {:induction false} TickCollectsStale(s: State, ips: seq<string>, cutoff: int)
    requires cutoff <= s.now - STALE_AFTER
    ensures After(s, Tick(ips, cutoff)) ==
            s.(ipSem := map ip | ip in s.ipSem && (ip !in ips || s.ipSem[ip].last >= cutoff) :: s.ipSem[ip])
  {
    var run := Tick(ips, cutoff);
    if ips == [] {
      assert (map ip | ip in s.ipSem :: s.ipSem[ip]) == s.ipSem;
    } else {
      var init, ip := ips[..|ips| - 1], ips[|ips| - 1];
      TickCollectsStale(s, init, cutoff);
      assert run[..|run| - 1] == Tick(init, cutoff);
      assert ips == init + [ip];
    }
  }

  lemma ExclusionStep(s: State, e: Event)
    requires Exclusive(s) && SlotsMatch(s) && HeldAtMost(s, STALE_AFTER)
    ensures Exclusive(Step(s, e)) && SlotsMatch(Step(s, e))
  {
    hide Exclusive, SlotsMatch, HeldAtMost, Step;
    match e
    case TryIP(r) => TryIPStep(s, r);
    case Release(r) => ReleaseStep(s, r);
    case Collect(ip, cutoff) => CollectStep(s, ip, cutoff);
    case _ => OtherRequestsStep(s, e);
  }

  lemma HeldPrefix(s: State, run: seq<Event>, bound: int)
    requires run != [] && AlwaysHeldAtMost(s, run, bound)
    ensures AlwaysHeldAtMost(s, run[..|run| - 1], bound)
    ensures HeldAtMost(After(s, run[..|run| - 1]), bound)
  {
    hide After, HeldAtMost;
    var init := run[..|run| - 1];
    forall n | 0 <= n <= |init|
      ensures HeldAtMost(After(s, init[..n]), bound)
    {
      assert init[..n] == run[..n];
    }
    assert init[..|init|] == init;
  }

  lemma {:induction false} RunExclusive(run: seq<Event>)
    requires AlwaysHeldAtMost(IDLE, run, STALE_AFTER)
    ensures Exclusive(After(IDLE, run)) && SlotsMatch(After(IDLE, run))
  {
    if run != [] {
      HeldPrefix(IDLE, run, STALE_AFTER);
      RunExclusive(run[..|run| - 1]);
      ExclusionStep(After(IDLE, run[..|run| - 1]), run[|run| - 1]);
    }
  }

  /** The run in which a holder outlives the collection of its slot. */
  ghost function Outlived(ip: string): seq<Event> {
    [Arrive(0, ip), TryIP(0), Wait(STALE_AFTER + 1), Collect(ip, 1), Arrive(1, ip), TryIP(1)]
  }

  /** The states that run goes through. */
  function OutlivedAt(ip: string, n: nat): State
    requires n <= 6
  {
    var late := STALE_AFTER + 1;
    if n == 0 then IDLE
    else if n == 1 then State(1, map[], map[0 := Gated(ip)], 0)
    else if n == 2 then State(1, map[ip := Slot(true, 0)], map[0 := Running(ip, 0)], 0)
    else if n == 3 then State(1, map[ip := Slot(true, 0)], map[0 := Running(ip, 0)], late)
    else if n == 4 then State(1, map[], map[0 := Running(ip, 0)], late)
    else if n == 5 then State(2, map[], map[0 := Running(ip, 0), 1 := Gated(ip)], late)
    else State(2, map[ip := Slot(true, late)], map[0 := Running(ip, 0), 1 := Running(ip, late)], late)
  }

  lemma OutlivedStep(ip: string, n: nat)
    requires n < 6
    ensures OutlivedAt(ip, n + 1) == Step(OutlivedAt(ip, n), Outlived(ip)[n])
  {
    var m := map[ip := Slot(true, 0)];
    assert m - {ip} == map[];
    assert map[0 := Gated(ip)][0 := Running(ip, 0)] == map[0 := Running(ip, 0)];
    assert map[0 := Running(ip, 0)][1 := Gated(ip)] == map[0 := Running(ip, 0), 1 := Gated(ip)];
    assert map[0 := Running(ip, 0), 1 := Gated(ip)][1 := Running(ip, STALE_AFTER + 1)]
           == map[0 := Running(ip, 0), 1 := Running(ip, STALE_AFTER + 1)];
  }

  lemma {:induction false} OutlivedStates(ip: string, n: nat)
    requires n <= 6
    ensures After(IDLE, Outlived(ip)[..n]) == OutlivedAt(ip, n)
    ensures HeldAtMost(OutlivedAt(ip, n), STALE_AFTER + 1)
  {
    hide Step;
    var run := Outlived(ip);
    if n == 0 {
      assert run[..0] == [];
    } else {
      OutlivedStates(ip, n - 1);
      OutlivedStep(ip, n - 1);
      assert run[..n] == run[..n - 1] + [run[n - 1]];
      AfterAppend(IDLE, run[..n - 1], run[n - 1]);
    }
  }

  /** Two holders of one address, after which the first one's release empties the second one's slot. */
  lemma OutlivedBreaks(ip: string)
    ensures AlwaysHeldAtMost(IDLE, Outlived(ip), STALE_AFTER + 1)
    ensures var s := After(IDLE, Outlived(ip));
            && Holds(s, 0, ip) && Holds(s, 1, ip)
            && Holds(Step(s, Release(0)), 1, ip)
            && Step(s, Release(0)).ipSem == map[ip := Slot(false, STALE_AFTER + 1)]
  {
    hide After, HeldAtMost;
    var run := Outlived(ip);
    forall n | 0 <= n <= |run|
      ensures HeldAtMost(After(IDLE, run[..n]), STALE_AFTER + 1)
    {
      OutlivedStates(ip, n);
    }
    assert run[..6] == run;
    OutlivedStates(ip, 6);
    var m := map[ip := Slot(true, STALE_AFTER + 1)];
    assert m[ip := Slot(false, STALE_AFTER + 1)] == map[ip := Slot(false, STALE_AFTER + 1)];
  }

  lemma AfterAppend(s: State, run: seq<Event>, e: Event)
    ensures After(s, run + [e]) == Step(After(s, run), e)
  {
    assert (run + [e])[..|run + [e]| - 1] == run;
  }

  ghost predicate AddressesExclusiveUpTo(bound: int) {
    forall run :: AlwaysHeldAtMost(IDLE, run, bound) ==> Exclusive(After(IDLE, run))
  }

  /** One request per address, in every run whose holds stay within a bound, exactly when the bound is
      no longer than the half hour after which idle slots are collected. */
  lemma ExclusiveIffHoldsAreShort(bound: int)
    requires bound >= 0
    ensures AddressesExclusiveUpTo(bound) <==> bound <= STALE_AFTER
  {
    hide Exclusive, After, HeldAtMost;
    if bound <= STALE_AFTER {
      forall run | AlwaysHeldAtMost(IDLE, run, bound)
        ensures Exclusive(After(IDLE, run))
      {
        WeakerBound(IDLE, run, bound, STALE_AFTER);
        RunExclusive(run);
      }
    } else {
      OutlivedBreaks("");
      WeakerBound(IDLE, Outlived(""), STALE_AFTER + 1, bound);
      NotExclusive(After(IDLE, Outlived("")), "");
    }
  }

  lemma WeakerBound(s: State, run: seq<Event>, x: int, y: int)
    requires AlwaysHeldAtMost(s, run, x) && x <= y
    ensures AlwaysHeldAtMost(s, run, y)
  {
    hide After;
    forall n | 0 <= n <= |run|
      ensures HeldAtMost(After(s, run[..n]), y)
    {
      assert HeldAtMost(After(s, run[..n]), x);
    }
  }

  lemma NotExclusive(s: State, ip: string)
    requires Holds(s, 0, ip) && Holds(s, 1, ip)
    ensures !Exclusive(s)
  {
  }

  // ---------- Busy addresses ----------

  ghost function BusyIPs(s: State): set<string> {
    set ip | ip in s.ipSem && s.ipSem[ip].full
  }

  lemma {:induction false} HoldersCover(s: State, ips: set<string>, reqs: set<nat>)
    requires forall ip :: ip in ips ==> exists r :: r in reqs && Holds(s, r, ip)
    ensures |ips| <= |reqs|
    decreases ips
  {
    if ips != {} {
      var ip :| ip in ips;
      var r :| r in reqs && Holds(s, r, ip);
      forall x | x in ips - {ip}
        ensures exists q :: q in reqs - {r} && Holds(s, q, x)
      {
        var q :| q in reqs && Holds(s, q, x);
        assert q != r;
        assert q in reqs - {r} && Holds(s, q, x);
      }
      HoldersCover(s, ips - {ip}, reqs - {r});
    }
  }

  /** However long holds last: whoever releases an address empties its slot, so the last to have taken a
      full slot still holds it. */
  lemma FullHeldStep(s: State, e: Event)
    requires FullHeld(s)
    ensures FullHeld(Step(s, e))
  {
    var s' := Step(s, e);
    forall ip | ip in s'.ipSem && s'.ipSem[ip].full
      ensures exists r :: Holds(s', r, ip)
    {
      if ip in s.ipSem && s.ipSem[ip].full {
        var r :| Holds(s, r, ip);
        assert Holds(s', r, ip);
      } else {
        assert Holds(s', e.req, ip);
      }
    }
  }

  lemma {:induction false} RunFullHeld(run: seq<Event>)
    ensures FullHeld(After(IDLE, run))
  {
    if run != [] {
      RunFullHeld(run[..|run| - 1]);
      FullHeldStep(After(IDLE, run[..|run| - 1]), run[|run| - 1]);
    }
  }

  /** Over any run, however long its holds last, every busy address is held by a request that owns a
      global place, so at most 30 addresses are busy at once. */
  lemma AtMostThirtyBusy(run: seq<Event>)
    ensures var s := After(IDLE, run);
            && (forall ip :: ip in BusyIPs(s) ==> exists r :: r in s.requests && Holds(s, r, ip))
            && |BusyIPs(s)| <= s.semaphore <= 30
  {
    hide After;
    PlacesConserved(run);
    RunFullHeld(run);
    var s := After(IDLE, run);
    forall ip | ip in BusyIPs(s)
      ensures exists r :: r in s.requests.Keys && Holds(s, r, ip)
    {
      var r :| Holds(s, r, ip);
      assert r in s.requests.Keys;
    }
    HoldersCover(s, BusyIPs(s), s.requests.Keys);
    assert |s.requests.Keys| == |s.requests|;
  }

  lemma Admission(s: State, r: nat, ip: string)
    requires Counted(s) && s.semaphore < MAX_REQUESTS && r !in s.requests
    ensures Counted(Step(Step(s, Arrive(r, ip)), TryIP(r)))
    ensures var (slots, ok) := Acquire(s.ipSem, ip, s.now);
            && (!ok ==> ip in s.ipSem && s.ipSem[ip].full)
            && (ok ==> Step(Step(s, Arrive(r, ip)), TryIP(r)) ==
                       State(s.semaphore + 1, slots, s.requests[r := Gated(ip)][r := Running(ip, s.now)], s.now))
  {
    hide Acquire;
    CountedStep(s, Arrive(r, ip));
    CountedStep(Step(s, Arrive(r, ip)), TryIP(r));
    AcquireTells(s.ipSem, ip, s.now);
  }

  lemma HoldsRunning(s: State, r: nat, ip: string)
    requires r in s.requests && s.requests[r] == Running(ip, s.now)
    ensures Holds(s, r, ip)
  {
  }

  lemma AcquireTells(m: Slots, ip: string, now: int)
    ensures !Acquire(m, ip, now).1 ==> ip in m && m[ip].full
  {
  }

  // ---------- The handler ----------

  /** The semaphore and the slot table, with what the running requests hold. */
  class Handler {
    var semaphore: nat
    var ipSem: Slots
    var requests: map<nat, Request>
    var now: int

    function View(): State
      reads this
    {
      State(semaphore, ipSem, requests, now)
    }

    ghost predicate Valid()
      reads this
    {
      Counted(View())
    }

    constructor ()
      ensures Valid() && View() == IDLE
    {
      semaphore, ipSem, requests, now := 0, map[], map[], 0;
    }

    method AcquireIP(ip: string) returns (ok: bool)
      modifies this`ipSem
      ensures (ipSem, ok) == Acquire(old(ipSem), ip, now)
      ensures ip in ipSem && ipSem[ip].full && ipSem[ip].last == now && ipSem - {ip} == old(ipSem) - {ip}
      ensures ok <==> ip !in old(ipSem) || !old(ipSem)[ip].full
    {
      if ip !in ipSem {
        ipSem := ipSem[ip := Slot(false, 0)];
      }
      ghost var was := old(ipSem);
      ipSem := ipSem[ip := ipSem[ip].(last := now)];
      if ipSem[ip].full {
        assert ipSem == was[ip := Slot(true, now)];
        return false;
      }
      ipSem := ipSem[ip := ipSem[ip].(full := true)];
      assert ipSem == was[ip := Slot(true, now)];
      return true;
    }

    method ReleaseIP(ip: string)
      modifies this`ipSem
      ensures ipSem == Vacate(old(ipSem), ip)
      ensures ip in ipSem <==> ip in old(ipSem)
      ensures ip in ipSem ==> !ipSem[ip].full && ipSem[ip].last == old(ipSem)[ip].last
      ensures ipSem - {ip} == old(ipSem) - {ip}
    {
      if ip in ipSem && ipSem[ip].full {
        ipSem := ipSem[ip := ipSem[ip].(full := false)];
      }
    }

    /** One tick of the janitor that nothing interrupts. */
    method CleanupIPSem()
      modifies this`ipSem
      ensures ipSem == map ip | ip in old(ipSem) && old(ipSem)[ip].last >= now - 1_800_000_000_000 :: old(ipSem)[ip]
    {
      var cutoff := now - STALE_AFTER;
      ghost var was := ipSem;
      var todo := ipSem.Keys;
      while todo != {}
        invariant todo <= was.Keys
        invariant ipSem == map ip | ip in was && (ip in todo || was[ip].last >= cutoff) :: was[ip]
        decreases todo
      {
        var ip :| ip in todo;
        if ipSem[ip].last < cutoff {
          ipSem := ipSem - {ip};
        }
        todo := todo - {ip};
      }
    }

    /** The gates of a request handler, in the order of the handlers: the global place first, then the
        address; each is given back in the reverse order when the handler returns. */
    method Begin(r: nat, ip: string) returns (admitted: bool)
      requires Valid() && r !in requests
      modifies this
      ensures Valid()
      ensures semaphore == old(semaphore) && requests == old(requests) <==> !admitted
      ensures admitted ==> View() == Step(Step(old(View()), Arrive(r, ip)), TryIP(r)) && Holds(View(), r, ip)
      ensures !admitted ==> old(semaphore) >= MAX_REQUESTS || (ip in old(ipSem) && old(ipSem)[ip].full)
      ensures !admitted ==> ipSem == old(ipSem) || ipSem == Acquire(old(ipSem), ip, now).0
    {
      if semaphore >= MAX_REQUESTS {
        return false;
      }
      Admission(View(), r, ip);
      hide Step, Acquire, Holds, Counted;
      semaphore, requests := semaphore + 1, requests[r := Gated(ip)];
      var ok := AcquireIP(ip);
      if !ok {
        UpdateOneKey(old(requests), r, Gated(ip));
        semaphore, requests := semaphore - 1, requests - {r};
        SameRequests(old(View()), View());
        return false;
      }
      requests := requests[r := Running(ip, now)];
      HoldsRunning(View(), r, ip);
      return true;
    }

    method Finish(r: nat)
      requires Valid() && r in requests && requests[r].Running?
      modifies this
      ensures Valid()
      ensures View() == Step(Step(old(View()), Release(r)), Leave(r))
      ensures semaphore == old(semaphore) - 1 && requests == old(requests) - {r}
      ensures var ip := old(requests)[r].ip; ip in ipSem ==> !ipSem[ip].full
    {
      KeysSize(requests, r, Leaving(requests[r].ip));
      KeysSize(requests[r := Leaving(requests[r].ip)], r, Leaving(""));
      ReleaseIP(requests[r].ip);
      requests := requests - {r};
      semaphore := semaphore - 1;
    }
  }
}
