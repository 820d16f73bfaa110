/** The token bucket: lazy refill per key, and a janitor that deletes stale buckets. Time is in
    seconds and each call is one step. */
module RateLimit {
  import opened Collections
  import opened Wrappers

  datatype Params = Params(rate: real, maxTok: real)

  datatype Entry = Entry(tokens: real, lastCheck: real)

  const STALE_AFTER: real := 1800.0

  function PerMinute(rpm: int, burst: int): Params {
    Params(rpm as real / 60.0, burst as real)
  }

  function PerHour(rph: int, burst: int): Params {
    Params(rph as real / 3600.0, burst as real)
  }

  function Min(x: real, y: real): real {
    if x <= y then x else y
  }

  /** What a bucket earns in a stretch of time. */
  function Earned(p: Params, seconds: real): real {
    seconds * p.rate
  }

  lemma EarnedAdds(p: Params, a: real, b: real)
    ensures Earned(p, a) + Earned(p, b) == Earned(p, a + b)
  {
  }

  lemma EarnedGrows(p: Params, a: real, b: real)
    requires p.rate >= 0.0 && a <= b
    ensures Earned(p, a) <= Earned(p, b)
    ensures Earned(p, 0.0) == 0.0
  {
    EarnedAdds(p, a, b - a);
    assert (b - a) * p.rate >= 0.0;
  }

  // ---------- One key ----------

  /** What one call does to its key's entry, and its answer. */
  function AllowStep(p: Params, e: Option<Entry>, now: real): (Entry, bool) {
    match e
    case None => (Entry(p.maxTok - 1.0, now), true)
    case Some(Entry(tokens, lastCheck)) =>
      var refilled := Min(p.maxTok, tokens + Earned(p, now - lastCheck));
      if refilled >= 1.0 then (Entry(refilled - 1.0, now), true) else (Entry(refilled, now), false)
  }

  // ---------- All keys, over whole runs ----------

  datatype Event = Call(key: string, time: real) | Tick(time: real)

  type Table = map<string, Entry>

  function Find(m: Table, key: string): Option<Entry> {
    if key in m then Some(m[key]) else None
  }

  predicate Stale(e: Entry, now: real) {
    now - e.lastCheck > STALE_AFTER
  }

  ghost function Step(p: Params, m: Table, e: Event): Table {
    match e
    case Call(key, now) => m[key := AllowStep(p, Find(m, key), now).0]
    case Tick(now) => map key | key in m && !Stale(m[key], now) :: m[key]
  }

  /** The table after a run that starts empty. */
  ghost function After(p: Params, run: seq<Event>): Table {
    if run == [] then map[] else Step(p, After(p, run[..|run| - 1]), run[|run| - 1])
  }

  /** The answer a call gets after a run. */
  ghost predicate Allowed(p: Params, run: seq<Event>, key: string, now: real) {
    AllowStep(p, Find(After(p, run), key), now).1
  }

  /** The times of a key's allowed calls. */
  ghost function Admitted(p: Params, run: seq<Event>, key: string): seq<real> {
    if run == [] then []
    else
      var init, e := run[..|run| - 1], run[|run| - 1];
      var rest := Admitted(p, init, key);
      if e.Call? && e.key == key && Allowed(p, init, key, e.time) then rest + [e.time] else rest
  }

  /** The answers to all the calls of a run, in order. */
  ghost function Answers(p: Params, run: seq<Event>): seq<bool> {
    if run == [] then []
    else
      var init, e := run[..|run| - 1], run[|run| - 1];
      Answers(p, init) + if e.Call? then [Allowed(p, init, e.key, e.time)] else []
  }

  ghost predicate Monotone(run: seq<Event>) {
    forall i, j :: 0 <= i < j < |run| ==> run[i].time <= run[j].time
  }

  ghost predicate NoTicks(run: seq<Event>) {
    forall i :: 0 <= i < |run| ==> run[i].Call?
  }

  /** A bucket of at least one token that refills completely within the stale time. */
  predicate Tuned(p: Params) {
    p.maxTok >= 1.0 && Earned(p, STALE_AFTER) >= p.maxTok
  }

  // ---------- The closed form ----------

  /** Every window that starts at an earlier allowed call still has room for one more. */
  ghost predicate HasRoom(p: Params, h: seq<real>, now: real) {
    forall i :: 0 <= i < |h| ==> (|h| - i + 1) as real <= p.maxTok + Earned(p, now - h[i])
  }

  /** A key's first call is always allowed; a later one when every window has room. */
  ghost predicate Decision(p: Params, h: seq<real>, now: real) {
    h == [] || (p.maxTok >= 1.0 && HasRoom(p, h, now))
  }

  /** The tokens in the bucket at a time, in terms of the allowed calls alone. */
  ghost function Level(p: Params, h: seq<real>, now: real): (r: real)
    ensures r <= p.maxTok
    decreases |h|
  {
    if h == [] then p.maxTok else Min(Window(p, h, now), Level(p, h[1..], now))
  }

  /** What the window that starts at the first of these calls has left. */
  ghost function Window(p: Params, h: seq<real>, now: real): real
    requires h != []
  {
    p.maxTok - |h| as real + Earned(p, now - h[0])
  }

  /** Lazy refill computes the level: refilling twice is refilling once. */
  lemma {:induction false} Refill(p: Params, h: seq<real>, t: real, u: real)
    requires p.rate >= 0.0 && t <= u
    ensures Min(p.maxTok, Level(p, h, t) + Earned(p, u - t)) == Level(p, h, u)
    decreases |h|
  {
    hide Earned;
    EarnedGrows(p, 0.0, u - t);
    if h != [] {
      Refill(p, h[1..], t, u);
      EarnedAdds(p, t - h[0], u - t);
    }
  }

  /** An allowed call takes one token from every window. */
  lemma {:induction false} Spend(p: Params, h: seq<real>, t: real)
    requires p.rate >= 0.0
    ensures Level(p, h + [t], t) == Level(p, h, t) - 1.0
    decreases |h|
  {
    hide Earned;
    if h == [] {
      assert [] + [t] == [t];
      assert [t][1..] == [];
      EarnedGrows(p, 0.0, 0.0);
    } else {
      Spend(p, h[1..], t);
      assert (h + [t])[1..] == h[1..] + [t];
      assert Window(p, h + [t], t) == Window(p, h, t) - 1.0;
    }
  }

  lemma {:induction false} LevelIsRoom(p: Params, h: seq<real>, t: real)
    ensures Level(p, h, t) >= 1.0 <==> p.maxTok >= 1.0 && HasRoom(p, h, t)
    decreases |h|
  {
    hide Earned;
    if h != [] {
      LevelIsRoom(p, h[1..], t);
      RoomFromFront(p, h, t);
    }
  }

  lemma RoomFromFront(p: Params, h: seq<real>, t: real)
    requires h != []
    ensures HasRoom(p, h, t) <==> Window(p, h, t) >= 1.0 && HasRoom(p, h[1..], t)
  {
    hide Earned;
    var tail := h[1..];
    if HasRoom(p, h, t) {
      forall i | 0 <= i < |tail|
        ensures (|tail| - i + 1) as real <= p.maxTok + Earned(p, t - tail[i])
      {
        assert tail[i] == h[i + 1];
      }
    } else {
      var i :| 0 <= i < |h| && !((|h| - i + 1) as real <= p.maxTok + Earned(p, t - h[i]));
      assert i > 0 ==> tail[i - 1] == h[i];
    }
  }

  /** What the entry of a key must hold, given the key's allowed calls and a time no earlier than its
      last check. A missing entry stands for an untouched bucket: no calls yet, or one that is full again. */
  ghost predicate Represents(p: Params, e: Option<Entry>, h: seq<real>, now: real) {
    match e
    case None => h == [] || (p.maxTok >= 1.0 && Level(p, h, now) == p.maxTok)
    case Some(Entry(tokens, lastCheck)) =>
      && h != [] && lastCheck <= now && tokens == Level(p, h, lastCheck)
      && (p.maxTok >= 1.0 ==> tokens >= 0.0)
  }

  lemma TimePasses(p: Params, e: Option<Entry>, h: seq<real>, t: real, u: real)
    requires p.rate >= 0.0 && t <= u && Represents(p, e, h, t)
    ensures Represents(p, e, h, u)
  {
    hide Earned;
    Refill(p, h, t, u);
    EarnedGrows(p, 0.0, u - t);
  }

  /** A call answers by the closed form and keeps the representation. */
  lemma CallStep(p: Params, e: Option<Entry>, h: seq<real>, now: real)
    requires p.rate >= 0.0 && Represents(p, e, h, now)
    ensures var (e', ok) := AllowStep(p, e, now);
            && (ok <==> Decision(p, h, now))
            && Represents(p, Some(e'), if ok then h + [now] else h, now)
  {
    hide Earned, HasRoom;
    LevelIsRoom(p, h, now);
    Spend(p, h, now);
    if e.Some? {
      hide Level;
      Refill(p, h, e.value.lastCheck, now);
      EarnedGrows(p, 0.0, now - e.value.lastCheck);
    }
  }

  /** A bucket stale for over half an hour is full, if the bucket is tuned. */
  lemma StaleIsFull(p: Params, e: Entry, h: seq<real>, now: real)
    requires p.rate >= 0.0 && Tuned(p) && Represents(p, Some(e), h, now) && Stale(e, now)
    ensures Represents(p, None, h, now)
  {
    hide Earned, Level;
    Refill(p, h, e.lastCheck, now);
    EarnedGrows(p, STALE_AFTER, now - e.lastCheck);
  }

  lemma MonotoneInit(run: seq<Event>)
    requires run != [] && Monotone(run)
    ensures Monotone(run[..|run| - 1])
    ensures |run| >= 2 ==> run[|run| - 2].time <= run[|run| - 1].time
  {
  }

  /** Over any run, every key's entry represents its allowed calls; with ticks this needs a tuned bucket. */
  lemma {:induction false} RunRepresents(p: Params, run: seq<Event>, key: string, now: real)
    requires p.rate >= 0.0 && Monotone(run) && (NoTicks(run) || Tuned(p))
    requires run != [] ==> run[|run| - 1].time <= now
    ensures Represents(p, Find(After(p, run), key), Admitted(p, run, key), now)
    decreases |run|
  {
    if run != [] {
      var init, e := run[..|run| - 1], run[|run| - 1];
      MonotoneInit(run);
      assert NoTicks(run) ==> NoTicks(init);
      RunRepresents(p, init, key, e.time);
      var before, h := Find(After(p, init), key), Admitted(p, init, key);
      if e.Call? && e.key == key {
        CallStep(p, before, h, e.time);
      } else if e.Tick? && before.Some? && Stale(before.value, e.time) {
        StaleIsFull(p, before.value, h, e.time);
      }
      TimePasses(p, Find(After(p, run), key), Admitted(p, run, key), e.time, now);
    }
  }

  /** The closed form: on any run, cleanup ticks included if the bucket is tuned, a call is allowed
      exactly when every window that starts at an earlier allowed call of its key has room for it. */
  lemma ClosedForm(p: Params, run: seq<Event>, key: string, now: real)
    requires p.rate >= 0.0 && Monotone(run) && (NoTicks(run) || Tuned(p))
    requires run != [] ==> run[|run| - 1].time <= now
    ensures Allowed(p, run, key, now) <==> Decision(p, Admitted(p, run, key), now)
  {
    RunRepresents(p, run, key, now);
    CallStep(p, Find(After(p, run), key), Admitted(p, run, key), now);
  }

  // ---------- What the closed form gives ----------

  lemma AppendEvent(p: Params, run: seq<Event>, e: Event)
    ensures After(p, run + [e]) == Step(p, After(p, run), e)
    ensures forall key {:trigger Admitted(p, run + [e], key)} :: Admitted(p, run + [e], key) ==
              Admitted(p, run, key)
              + if e.Call? && e.key == key && Allowed(p, run, key, e.time) then [e.time] else []
    ensures Answers(p, run + [e]) == Answers(p, run) + if e.Call? then [Allowed(p, run, e.key, e.time)] else []
  {
    hide AllowStep, Earned;
    assert (run + [e])[..|run + [e]| - 1] == run;
  }

  /** In any window between two of a key's allowed calls, no more are allowed than the burst and
      what the window's length earns. */
  lemma {:induction false} RateIsBounded(p: Params, run: seq<Event>, key: string, i: nat, j: nat)
    requires p.rate >= 0.0 && p.maxTok >= 1.0 && Monotone(run) && (NoTicks(run) || Tuned(p))
    requires i <= j < |Admitted(p, run, key)|
    ensures var h := Admitted(p, run, key); (j - i + 1) as real <= p.maxTok + Earned(p, h[j] - h[i])
    decreases |run|
  {
    hide Earned;
    var init, e := run[..|run| - 1], run[|run| - 1];
    MonotoneInit(run);
    assert NoTicks(run) ==> NoTicks(init);
    var before := Admitted(p, init, key);
    if j < |before| {
      RateIsBounded(p, init, key, i, j);
    } else {
      ClosedForm(p, init, key, e.time);
      EarnedGrows(p, 0.0, 0.0);
      assert i < |before| ==> (|before| - i + 1) as real <= p.maxTok + Earned(p, e.time - before[i]);
    }
  }

  /** The times at which a key called, allowed or not. */
  ghost function CallTimes(run: seq<Event>, key: string): seq<real> {
    if run == [] then []
    else
      var rest, e := CallTimes(run[..|run| - 1], key), run[|run| - 1];
      if e.Call? && e.key == key then rest + [e.time] else rest
  }

  /** No stretch of calls is denser than the burst and the rate permit. */
  ghost predicate KeepsBound(p: Params, times: seq<real>) {
    forall i, j :: 0 <= i <= j < |times| ==> (j - i + 1) as real <= p.maxTok + Earned(p, times[j] - times[i])
  }

  /** A client that keeps to that bound is never refused, whatever the other clients do and wherever the
      ticks fall. */
  lemma {:induction false} WithinBoundNeverRefused(p: Params, run: seq<Event>, key: string)
    requires p.rate >= 0.0 && p.maxTok >= 1.0 && Monotone(run) && (NoTicks(run) || Tuned(p))
    requires KeepsBound(p, CallTimes(run, key))
    ensures Admitted(p, run, key) == CallTimes(run, key)
    decreases |run|
  {
    hide Earned, After, Allowed, Tuned;
    if run != [] {
      var init, e := run[..|run| - 1], run[|run| - 1];
      MonotoneInit(run);
      assert NoTicks(run) ==> NoTicks(init);
      if e.Call? && e.key == key {
        RoomFromBound(p, CallTimes(init, key), e.time);
        WithinBoundNeverRefused(p, init, key);
        ClosedForm(p, init, key, e.time);
      } else {
        WithinBoundNeverRefused(p, init, key);
      }
    }
  }

  lemma RoomFromBound(p: Params, times: seq<real>, t: real)
    requires KeepsBound(p, times + [t])
    ensures KeepsBound(p, times) && HasRoom(p, times, t)
  {
    hide Earned;
    var all := times + [t];
    forall i, j | 0 <= i <= j < |times|
      ensures (j - i + 1) as real <= p.maxTok + Earned(p, times[j] - times[i])
    {
      assert all[i] == times[i] && all[j] == times[j];
    }
    forall i | 0 <= i < |times|
      ensures (|times| - i + 1) as real <= p.maxTok + Earned(p, t - times[i])
    {
      assert all[i] == times[i] && all[|times|] == t;
    }
  }

  /** A refused call leaves no trace: the calls after it are decided as if it had not been made. */
  lemma {:induction false} RefusalLeavesNoTrace(p: Params, x: seq<Event>, e: Event, y: seq<Event>, key: string)
    requires p.rate >= 0.0 && Monotone(x + [e] + y) && Monotone(x + y)
    requires NoTicks(x + [e] + y) || Tuned(p)
    requires e.Call? && !Allowed(p, x, e.key, e.time)
    ensures Admitted(p, x + [e] + y, key) == Admitted(p, x + y, key)
    decreases |y|
  {
    hide Earned, AllowStep, After, Allowed, Decision, Tuned, Answers;
    AppendEvent(p, x, e);
    if y == [] {
      assert x + [e] + y == x + [e] && x + y == x;
    } else {
      var init, f := y[..|y| - 1], y[|y| - 1];
      var long, short := x + [e] + init, x + init;
      assert x + [e] + y == long + [f] && x + y == short + [f];
      PrefixOf(long, f);
      PrefixOf(short, f);
      RefusalLeavesNoTrace(p, x, e, init, key);
      AppendEvent(p, long, f);
      AppendEvent(p, short, f);
      if f.Call? && f.key == key {
        assert NoTicks(long + [f]) ==> NoTicks(short) by {
          if NoTicks(long + [f]) {
            NoTicksWithout(x, e, init, f);
          }
        }
        ClosedForm(p, long, key, f.time);
        ClosedForm(p, short, key, f.time);
      }
    }
  }

  lemma NoTicksWithout(x: seq<Event>, e: Event, y: seq<Event>, f: Event)
    requires NoTicks(x + [e] + y + [f])
    ensures NoTicks(x + y)
  {
    var all := x + [e] + y + [f];
    forall i | 0 <= i < |x + y|
      ensures (x + y)[i].Call?
    {
      assert (x + y)[i] == all[if i < |x| then i else i + 1];
    }
  }

  lemma PrefixOf(run: seq<Event>, f: Event)
    requires Monotone(run + [f])
    ensures Monotone(run) && (run != [] ==> run[|run| - 1].time <= f.time)
    ensures NoTicks(run + [f]) ==> NoTicks(run)
  {
    var all := run + [f];
    assert forall i :: 0 <= i < |run| ==> all[i] == run[i];
    assert all[|run|] == f;
  }

  // ---------- Cleanup ----------

  ghost function DropTicks(run: seq<Event>): seq<Event> {
    if run == [] then []
    else
      var rest, e := DropTicks(run[..|run| - 1]), run[|run| - 1];
      if e.Tick? then rest else rest + [e]
  }

  lemma {:induction false} DropTicksMonotone(run: seq<Event>, now: real)
    requires Monotone(run) && (run != [] ==> run[|run| - 1].time <= now)
    ensures Monotone(DropTicks(run)) && NoTicks(DropTicks(run))
    ensures forall i :: 0 <= i < |DropTicks(run)| ==> DropTicks(run)[i].time <= now
    decreases |run|
  {
    if run != [] {
      MonotoneInit(run);
      DropTicksMonotone(run[..|run| - 1], run[|run| - 1].time);
    }
  }

  lemma SameDecision(p: Params, run: seq<Event>, key: string, now: real)
    requires p.rate >= 0.0 && Tuned(p) && Monotone(run) && (run != [] ==> run[|run| - 1].time <= now)
    requires Admitted(p, run, key) == Admitted(p, DropTicks(run), key)
    ensures Allowed(p, run, key, now) <==> Allowed(p, DropTicks(run), key, now)
  {
    hide Earned, After, AllowStep, Allowed, Decision, Tuned, Admitted;
    DropTicksMonotone(run, now);
    ClosedForm(p, run, key, now);
    ClosedForm(p, DropTicks(run), key, now);
  }

  lemma DropTicksStep(run: seq<Event>)
    requires run != []
    ensures var init, e := run[..|run| - 1], run[|run| - 1];
            run == init + [e] && DropTicks(run) == if e.Tick? then DropTicks(init) else DropTicks(init) + [e]
  {
  }

  lemma {:induction false} SameAdmitted(p: Params, run: seq<Event>, key: string)
    requires p.rate >= 0.0 && Tuned(p) && Monotone(run)
    ensures Admitted(p, run, key) == Admitted(p, DropTicks(run), key)
    decreases |run|
  {
    hide Earned, After, AllowStep, Allowed, Decision, Tuned;
    if run != [] {
      var init, e := run[..|run| - 1], run[|run| - 1];
      MonotoneInit(run);
      SameAdmitted(p, init, key);
      DropTicksStep(run);
      hide Admitted, DropTicks;
      AppendEvent(p, init, e);
      if e.Call? {
        AppendEvent(p, DropTicks(init), e);
        if e.key == key {
          SameDecision(p, init, key, e.time);
        }
      }
    }
  }

  /** Cleanup is unobservable: with a tuned bucket, a limiter whose janitor ticks anywhere in the run
      gives every call the answer it would get from a limiter that never deletes an entry. */
  lemma {:induction false} CleanupUnobservable(p: Params, run: seq<Event>)
    requires p.rate >= 0.0 && Tuned(p) && Monotone(run)
    ensures Answers(p, run) == Answers(p, DropTicks(run))
    decreases |run|
  {
    hide Earned, After, AllowStep, Allowed, Decision, Tuned, Admitted;
    if run != [] {
      var init, e := run[..|run| - 1], run[|run| - 1];
      MonotoneInit(run);
      CleanupUnobservable(p, init);
      DropTicksStep(run);
      hide Answers, DropTicks;
      AppendEvent(p, init, e);
      if e.Call? {
        AppendEvent(p, DropTicks(init), e);
        SameAdmitted(p, init, e.key);
        SameDecision(p, init, e.key, e.time);
      }
    }
  }

  ghost function Burst(key: string, t: real, n: nat): seq<Event> {
    if n == 0 then [] else Burst(key, t, n - 1) + [Call(key, t)]
  }

  ghost function Yes(n: nat): seq<bool> {
    if n == 0 then [] else Yes(n - 1) + [true]
  }

  lemma BurstCall(p: Params, t: real, n: nat)
    requires 0 < n && n as real <= p.maxTok
    ensures AllowStep(p, if n == 1 then None else Some(Entry(p.maxTok - (n - 1) as real, t)), t)
            == (Entry(p.maxTok - n as real, t), true)
  {
    assert Earned(p, t - t) == 0.0;
  }

  /** From an untouched bucket, a burst within its size is allowed to the last call. */
  lemma {:induction false} BurstAllowed(p: Params, run: seq<Event>, key: string, t: real, n: nat)
    requires key !in After(p, run) && n as real <= p.maxTok
    ensures Find(After(p, run + Burst(key, t, n)), key) == if n == 0 then None else Some(Entry(p.maxTok - n as real, t))
    ensures Answers(p, run + Burst(key, t, n)) == Answers(p, run) + Yes(n)
  {
    hide After, Answers, AllowStep;
    if n == 0 {
      assert run + Burst(key, t, 0) == run;
    } else {
      BurstAllowed(p, run, key, t, n - 1);
      var before := run + Burst(key, t, n - 1);
      BurstCall(p, t, n);
      Assoc(run, Burst(key, t, n - 1), [Call(key, t)]);
      AppendEvent(p, before, Call(key, t));
      Assoc(Answers(p, run), Yes(n - 1), [true]);
    }
  }

  lemma {:induction false} BurstShape(key: string, t: real, n: nat)
    ensures |Burst(key, t, n)| == n
    ensures forall i :: 0 <= i < n ==> Burst(key, t, n)[i] == Call(key, t)
  {
    if n > 0 {
      BurstShape(key, t, n - 1);
    }
  }

  /** If every call of a one-key run is allowed, the allowed calls are all its calls. */
  lemma {:induction false} AllAllowed(p: Params, run: seq<Event>, key: string)
    requires forall i :: 0 <= i < |run| ==> run[i].Call? && run[i].key == key
    requires Answers(p, run) == Yes(|run|)
    ensures |Admitted(p, run, key)| == |run|
    ensures run != [] ==> Admitted(p, run, key)[0] == run[0].time
    decreases |run|
  {
    hide After, AllowStep;
    if run != [] {
      var init, e := run[..|run| - 1], run[|run| - 1];
      LastAnswer(Answers(p, init), Allowed(p, init, key, e.time), |init|);
      AllAllowed(p, init, key);
    }
  }

  lemma LastAnswer(answers: seq<bool>, ok: bool, n: nat)
    requires answers + [ok] == Yes(n + 1)
    ensures answers == Yes(n) && ok
  {
    assert answers == (answers + [ok])[..|answers|];
    assert ok == (answers + [ok])[|answers|];
    assert |Yes(n)| == |Yes(n + 1)| - 1;
    assert Yes(n) == Yes(n + 1)[..|Yes(n)|];
  }

  /** The run that tells: spend the whole bucket, wait until the entry is just stale, spend again. */
  ghost function Telltale(key: string, wait: real, n: nat): seq<Event> {
    Burst(key, 0.0, n) + [Tick(wait)] + Burst(key, wait, n)
  }

  lemma WithJanitor(p: Params, key: string, wait: real, n: nat)
    requires wait > STALE_AFTER && n > 0 && n as real <= p.maxTok
    ensures Answers(p, Telltale(key, wait, n)) == Yes(n) + Yes(n)
  {
    hide Answers, AllowStep;
    var first := Burst(key, 0.0, n);
    BurstAllowed(p, [], key, 0.0, n);
    assert [] + first == first;
    assert Answers(p, []) + Yes(n) == Yes(n) by {
      AnswersOfNothing(p);
      assert [] + Yes(n) == Yes(n);
    }
    AppendEvent(p, first, Tick(wait));
    assert Answers(p, first) + [] == Answers(p, first);
    BurstAllowed(p, first + [Tick(wait)], key, wait, n);
  }

  lemma AnswersOfNothing(p: Params)
    ensures Answers(p, []) == []
  {
  }

  /** Without deletions the second burst is not allowed to its end. */
  lemma WithoutJanitor(p: Params, key: string, wait: real, n: nat)
    requires p.rate >= 0.0 && wait >= 0.0 && n > 0 && n as real == p.maxTok && Earned(p, wait) < p.maxTok
    ensures Answers(p, Burst(key, 0.0, n) + Burst(key, wait, n)) != Yes(n + n)
  {
    hide After, Answers, AllowStep, Admitted, Earned;
    var x := Burst(key, 0.0, n) + Burst(key, wait, n - 1);
    Assoc(Burst(key, 0.0, n), Burst(key, wait, n - 1), [Call(key, wait)]);
    BurstShape(key, 0.0, n);
    BurstShape(key, wait, n - 1);
    AppendEvent(p, x, Call(key, wait));
    if Answers(p, x + [Call(key, wait)]) == Yes(n + n) {
      LastAnswer(Answers(p, x), Allowed(p, x, key, wait), n + n - 1);
      AllAllowed(p, x, key);
      ClosedForm(p, x, key, wait);
      NoRoomLeft(p, Admitted(p, x, key), wait, n);
    }
  }

  lemma NoRoomLeft(p: Params, h: seq<real>, wait: real, n: nat)
    requires n > 0 && |h| == n + n - 1 && h[0] == 0.0
    requires n as real == p.maxTok && Earned(p, wait) < p.maxTok
    ensures !HasRoom(p, h, wait)
  {
    hide Earned;
    assert wait - h[0] == wait;
  }

  lemma {:induction false} DropTicksConcat(x: seq<Event>, y: seq<Event>)
    ensures DropTicks(x + y) == DropTicks(x) + DropTicks(y)
  {
    if y == [] {
      assert x + y == x;
    } else {
      var init, e := y[..|y| - 1], y[|y| - 1];
      DropTicksConcat(x, init);
      assert (x + y)[..|x + y| - 1] == x + init;
    }
  }

  lemma {:induction false} DropNothing(run: seq<Event>)
    requires NoTicks(run)
    ensures DropTicks(run) == run
  {
    if run != [] {
      DropNothing(run[..|run| - 1]);
    }
  }

  lemma DropTelltale(key: string, wait: real, n: nat)
    ensures DropTicks(Telltale(key, wait, n)) == Burst(key, 0.0, n) + Burst(key, wait, n)
  {
    var first, second, tick := Burst(key, 0.0, n), Burst(key, wait, n), [Tick(wait)];
    BurstShape(key, 0.0, n);
    BurstShape(key, wait, n);
    DropNothing(first);
    DropNothing(second);
    assert DropTicks([]) == [] && tick[..0] == [];
    assert DropTicks(tick) == [];
    DropTicksConcat(first + tick, second);
    DropTicksConcat(first, tick);
    assert first + [] == first;
  }

  lemma TelltaleMonotone(key: string, wait: real, n: nat)
    requires wait >= 0.0
    ensures Monotone(Telltale(key, wait, n))
  {
    BurstShape(key, 0.0, n);
    BurstShape(key, wait, n);
  }

  lemma {:induction false} YesTwice(m: nat, n: nat)
    ensures Yes(m) + Yes(n) == Yes(m + n)
  {
    if n == 0 {
      assert Yes(m) + [] == Yes(m);
    } else {
      YesTwice(m, n - 1);
      Assoc(Yes(m), Yes(n - 1), [true]);
    }
  }

  /** A wait after which the entry is stale but the bucket is not yet full. */
  lemma ShortWait(p: Params) returns (wait: real)
    requires p.rate >= 0.0 && Earned(p, STALE_AFTER) < p.maxTok
    ensures wait > STALE_AFTER && Earned(p, wait) < p.maxTok
  {
    if p.rate == 0.0 {
      wait := STALE_AFTER + 1.0;
    } else {
      var spare := p.maxTok - Earned(p, STALE_AFTER);
      wait := STALE_AFTER + spare / (2.0 * p.rate);
      assert spare / (2.0 * p.rate) * p.rate == spare / 2.0;
      EarnedAdds(p, STALE_AFTER, spare / (2.0 * p.rate));
    }
  }

  /** The other direction: for a whole-number burst, as both constructors take, a limiter that is not
      tuned can be told from one that never deletes. */
  lemma CleanupObservable(p: Params, burst: int, key: string) returns (run: seq<Event>)
    requires p.rate >= 0.0 && p.maxTok == burst as real && !Tuned(p)
    ensures Monotone(run) && Answers(p, run) != Answers(p, DropTicks(run))
  {
    if burst >= 1 {
      var wait := ShortWait(p);
      run := Telltale(key, wait, burst);
      TelltaleMonotone(key, wait, burst);
      WithJanitor(p, key, wait, burst);
      WithoutJanitor(p, key, wait, burst);
      DropTelltale(key, wait, burst);
      YesTwice(burst, burst);
    } else {
      run := [Call(key, 0.0), Tick(1801.0), Call(key, 1801.0)];
      EmptyBucketTells(p, key);
    }
  }

  /** With a burst below one, the first call is allowed and no later one, unless the entry is deleted. */
  lemma EmptyBucketTells(p: Params, key: string)
    requires p.rate >= 0.0 && p.maxTok < 1.0
    ensures var run := [Call(key, 0.0), Tick(1801.0), Call(key, 1801.0)];
            Answers(p, run) == [true, true] && Answers(p, DropTicks(run)) == [true, false]
  {
    hide AllowStep, Answers, Allowed, DropTicks;
    var c0, t, c1 := Call(key, 0.0), Tick(1801.0), Call(key, 1801.0);
    FirstCallAllowed(p, key);
    assert [c0, t] == [c0] + [t] && [c0, t, c1] == [c0, t] + [c1] && [c0, c1] == [c0] + [c1];
    AppendEvent(p, [c0], t);
    assert Stale(Entry(p.maxTok - 1.0, 0.0), 1801.0);
    AppendEvent(p, [c0, t], c1);
    NewEntryAllows(p, [c0, t], key, 1801.0);
    AppendEvent(p, [c0], c1);
    PoorEntryRefuses(p, [c0], key, 1801.0);
    DropOne(c0);
    DropOne(t);
    DropOne(c1);
    DropTicksConcat([c0, t], [c1]);
    DropTicksConcat([c0], [t]);
    assert [c0] + [] == [c0];
    assert [true] + [] + [true] == [true, true] && [true] + [false] == [true, false];
  }

  lemma DropOne(e: Event)
    ensures DropTicks([e]) == if e.Tick? then [] else [e]
  {
    assert [e][..0] == [];
  }

  lemma FirstCallAllowed(p: Params, key: string)
    ensures After(p, [Call(key, 0.0)]) == map[key := Entry(p.maxTok - 1.0, 0.0)]
    ensures Answers(p, [Call(key, 0.0)]) == [true]
  {
    AnswersOfNothing(p);
    AppendEvent(p, [], Call(key, 0.0));
    assert [] + [Call(key, 0.0)] == [Call(key, 0.0)];
  }

  lemma NewEntryAllows(p: Params, run: seq<Event>, key: string, now: real)
    requires key !in After(p, run)
    ensures Allowed(p, run, key, now)
  {
  }

  lemma PoorEntryRefuses(p: Params, run: seq<Event>, key: string, now: real)
    requires key in After(p, run) && p.maxTok < 1.0
    ensures !Allowed(p, run, key, now)
  {
  }

  /** Both limiters of the server are tuned: 20 per minute with burst 5, and 10 per hour with burst 3. */
  lemma ServerLimitersAreTuned()
    ensures Tuned(PerMinute(20, 5)) && Tuned(PerHour(10, 3))
  {
  }

  lemma AllowMeans(p: Params, run: seq<Event>, key: string, now: real)
    ensures var (e, ok) := AllowStep(p, Find(After(p, run), key), now);
            && After(p, run + [Call(key, now)]) == After(p, run)[key := e]
            && (ok <==> Allowed(p, run, key, now))
    ensures p.rate >= 0.0 && Monotone(run + [Call(key, now)]) && (NoTicks(run) || Tuned(p)) ==>
              (Allowed(p, run, key, now) <==> Decision(p, Admitted(p, run, key), now))
  {
    hide AllowStep, Decision, Admitted, Tuned;
    AppendEvent(p, run, Call(key, now));
    if p.rate >= 0.0 && Monotone(run + [Call(key, now)]) && (NoTicks(run) || Tuned(p)) {
      PrefixOf(run, Call(key, now));
      ClosedForm(p, run, key, now);
    }
  }

  // ---------- The limiter ----------

  class Limiter {
    var entries: Table
    const p: Params
    /** The calls and ticks so far. */
    ghost var run: seq<Event>

    ghost predicate Valid()
      reads this
    {
      entries == After(p, run)
    }

    constructor New(rpm: int, burst: int)
      ensures Valid() && run == [] && p == PerMinute(rpm, burst)
      ensures Earned(p, 60.0) == rpm as real && p.maxTok == burst as real
    {
      entries, p, run := map[], PerMinute(rpm, burst), [];
    }

    constructor NewPerHour(rph: int, burst: int)
      ensures Valid() && run == [] && p == PerHour(rph, burst)
      ensures Earned(p, 3600.0) == rph as real && p.maxTok == burst as real
    {
      entries, p, run := map[], PerHour(rph, burst), [];
    }

    method Allow(key: string, now: real) returns (ok: bool)
      requires Valid()
      modifies this
      ensures Valid() && run == old(run) + [Call(key, now)]
      ensures ok <==> Allowed(p, old(run), key, now)
      ensures key in entries && entries[key].lastCheck == now && entries - {key} == old(entries) - {key}
      ensures p.rate >= 0.0 && Monotone(run) && (NoTicks(old(run)) || Tuned(p)) ==>
                (ok <==> Decision(p, Admitted(p, old(run), key), now))
    {
      AllowMeans(p, run, key, now);
      hide After, Allowed, Earned, Decision, Admitted, Monotone, NoTicks, Tuned;
      UpdateOneKey(entries, key, AllowStep(p, Find(entries, key), now).0);
      run := run + [Call(key, now)];
      if key !in entries {
        entries := entries[key := Entry(p.maxTok - 1.0, now)];
        return true;
      }
      var e := entries[key];
      var tokens := Min(p.maxTok, e.tokens + Earned(p, now - e.lastCheck));
      if tokens >= 1.0 {
        entries := entries[key := Entry(tokens - 1.0, now)];
        return true;
      }
      entries := entries[key := Entry(tokens, now)];
      return false;
    }

    method Cleanup(now: real)
      requires Valid()
      modifies this
      ensures Valid() && run == old(run) + [Tick(now)]
      ensures forall key :: key in entries <==> key in old(entries) && now - old(entries)[key].lastCheck <= 1800.0
      ensures forall key :: key in entries ==> entries[key] == old(entries)[key]
    {
      AppendEvent(p, run, Tick(now));
      ghost var was := entries;
      var todo := entries.Keys;
      while todo != {}
        invariant todo <= was.Keys
        invariant entries == map key | key in was && (key in todo || !Stale(was[key], now)) :: was[key]
        invariant run == old(run)
        decreases todo
      {
        var key :| key in todo;
        todo := todo - {key};
        if Stale(entries[key], now) {
          entries := entries - {key};
        }
      }
      run := run + [Tick(now)];
    }
  }
}
