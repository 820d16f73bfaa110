/** Permanent links on disk: a reservation counter, promotions in several steps, and a sweep that
    lists the directory, visits the files one by one and overwrites the counter. The steps of
    concurrent promotions and of the sweep interleave freely. Times are in nanoseconds. */
module ReportStore {
  import opened Collections
  import opened Wrappers

  const REPORT_TTL: int := 86_400_000_000_000
  const MAX_ACTIVE_TOTAL: int := 2000

  datatype Report = Report(id: string, kind: string, target: string, capturedAt: int, data: string)

  /** What a name in the reports directory leads to. */
  datatype DirEntry = Subdir | Unreadable | Garbage | Doc(report: Report)

  type Dir = map<string, DirEntry>

  function PathOf(id: string): string {
    id + ".json"
  }

  function TmpOf(id: string): string {
    PathOf(id) + ".tmp"
  }

  predicate HasSuffix(s: string, suffix: string) {
    |suffix| <= |s| && s[|s| - |suffix|..] == suffix
  }

  /** Forty lower-case hexadecimal digits. */
  predicate ValidID(id: string) {
    |id| == 40 && forall i :: 0 <= i < 40 ==> '0' <= id[i] <= '9' || 'a' <= id[i] <= 'f'
  }

  /** Temporary names are never taken for reports, and never collide with one. */
  lemma NamesApart(x: string, y: string)
    ensures HasSuffix(PathOf(x), ".json") && !HasSuffix(TmpOf(x), ".json")
    ensures TmpOf(x) != PathOf(y)
    ensures PathOf(x) == x + ".json" && TmpOf(x) == x + ".json.tmp"
    ensures PathOf(x) == PathOf(y) ==> x == y
    ensures TmpOf(x) == TmpOf(y) ==> x == y
  {
    assert TmpOf(x)[|TmpOf(x)| - 1] == 'p';
    assert PathOf(y)[|PathOf(y)| - 1] == 'n';
    assert PathOf(x)[|PathOf(x)| - 5..] == ".json";
    assert PathOf(x)[..|PathOf(x)| - 5] == x && PathOf(y)[..|PathOf(y)| - 5] == y;
    assert TmpOf(x)[..|TmpOf(x)| - 9] == x && TmpOf(y)[..|TmpOf(y)| - 9] == y;
    assert TmpOf(x)[|TmpOf(x)| - 5..][4] == 'p';
  }

  /** A readable report captured after the cutoff. */
  predicate IsLive(name: string, e: DirEntry, cutoff: int) {
    HasSuffix(name, ".json") && e.Doc? && e.report.capturedAt > cutoff
  }

  function LiveNames(dir: Dir, cutoff: int): set<string> {
    set name | name in dir && IsLive(name, dir[name], cutoff)
  }

  lemma SuffixMeans(s: string, suffix: string)
    ensures HasSuffix(s, suffix) <==> exists stem :: s == stem + suffix
  {
    if HasSuffix(s, suffix) {
      assert s == s[..|s| - |suffix|] + suffix;
    }
  }

  /** A live report is a readable one under a report name, captured less than 24 hours ago. */
  lemma LiveMeans(dir: Dir, now: int, name: string)
    ensures name in LiveNames(dir, now - REPORT_TTL) <==>
              && name in dir && dir[name].Doc? && now - dir[name].report.capturedAt < 86_400_000_000_000
              && exists stem :: name == stem + ".json"
  {
    hide HasSuffix;
    SuffixMeans(name, ".json");
  }

  lemma LiveNamesSpelledOut(dir: Dir, now: int)
    ensures LiveNames(dir, now - REPORT_TTL) ==
            set name | && name in dir && dir[name].Doc? && HasSuffix(name, ".json")
                       && now - dir[name].report.capturedAt < 86_400_000_000_000
  {
  }

  // ---------- Ids ----------

  type IDByte = x: nat | x < 256

  function HexDigit(n: nat): (c: char)
    requires n < 16
  {
    if n < 10 then ('0' as int + n) as char else ('a' as int + n - 10) as char
  }

  /** How an id is drawn: two lower-case hexadecimal digits a byte. */
  function Hex(b: seq<IDByte>): (s: string)
    ensures |s| == 2 * |b|
  {
    seq(2 * |b|, i requires 0 <= i < 2 * |b| => HexDigit(if i % 2 == 0 then b[i / 2] / 16 else b[i / 2] % 16))
  }

  function Nibble(c: char): nat
    requires '0' <= c <= '9' || 'a' <= c <= 'f'
  {
    if c <= '9' then c as int - '0' as int else c as int - 'a' as int + 10
  }

  /** The valid ids are exactly the texts of twenty bytes. */
  lemma ValidIsDrawn(id: string)
    ensures ValidID(id) <==> exists b: seq<IDByte> :: |b| == 20 && Hex(b) == id
  {
    if ValidID(id) {
      var b: seq<IDByte> := seq(20, i requires 0 <= i < 20 => 16 * Nibble(id[2 * i]) + Nibble(id[2 * i + 1]));
      forall i | 0 <= i < 40
        ensures Hex(b)[i] == id[i]
      {
        assert b[i / 2] == 16 * Nibble(id[2 * (i / 2)]) + Nibble(id[2 * (i / 2) + 1]);
      }
      assert Hex(b) == id;
    }
  }

  // ---------- The system, step by step ----------

  /** A promotion that holds a reservation: before and after its temporary file is written. */
  datatype Flight = Reserved | Staged(report: Report)

  /** A sweep between its directory listing and its store to the counter. */
  datatype Sweep = Sweep(todo: set<string>, cutoff: int, count: int)

  datatype State = State(active: int, dir: Dir, flights: map<nat, Flight>, sweep: Option<Sweep>, now: int)

  /** A promotion whose temporary file cannot be written gives up, and leaves behind whatever part of the
      file it got to disk; one whose rename fails removes the file. */
  datatype Event =
    | Wait(until: int)
    | Reserve(pid: nat)
    | Stage(pid: nat, id: string, kind: string, target: string, data: string)
    | WriteFailed(pid: nat, id: string, left: Option<DirEntry>)
    | Commit(pid: nat)
    | Abort(pid: nat)
    | SweepStart
    | SweepVisit(name: string)
    | SweepEnd

  function WithLeftover(dir: Dir, id: string, left: Option<DirEntry>): Dir {
    if left.None? then dir else dir[TmpOf(id) := left.value]
  }

  function Step(s: State, e: Event): State {
    match e
    case Wait(t) => if t >= s.now then s.(now := t) else s
    case Reserve(pid) =>
      if s.active >= MAX_ACTIVE_TOTAL || pid in s.flights then s
      else s.(active := s.active + 1, flights := s.flights[pid := Reserved])
    case Stage(pid, id, kind, target, data) =>
      if pid in s.flights && s.flights[pid].Reserved? then
        var r := Report(id, kind, target, s.now, data);
        s.(flights := s.flights[pid := Staged(r)], dir := s.dir[TmpOf(id) := Doc(r)])
      else s
    case WriteFailed(pid, id, left) =>
      if pid in s.flights && s.flights[pid].Reserved? then
        s.(active := s.active - 1, flights := s.flights - {pid}, dir := WithLeftover(s.dir, id, left))
      else s
    case Commit(pid) =>
      if pid in s.flights && s.flights[pid].Staged? then
        var r := s.flights[pid].report;
        s.(flights := s.flights - {pid}, dir := (s.dir - {TmpOf(r.id)})[PathOf(r.id) := Doc(r)])
      else s
    case Abort(pid) =>
      if pid in s.flights then
        s.(active := s.active - 1, flights := s.flights - {pid},
           dir := if s.flights[pid].Staged? then s.dir - {TmpOf(s.flights[pid].report.id)} else s.dir)
      else s
    case SweepStart =>
      if s.sweep.None? then s.(sweep := Some(Sweep(s.dir.Keys, s.now - REPORT_TTL, 0))) else s
    case SweepVisit(name) =>
      if s.sweep.Some? && name in s.sweep.value.todo then
        var w := s.sweep.value.(todo := s.sweep.value.todo - {name});
        if name in s.dir && IsLive(name, s.dir[name], w.cutoff) then s.(sweep := Some(w.(count := w.count + 1)))
        else if name in s.dir && HasSuffix(name, ".json") && s.dir[name].Doc? then s.(sweep := Some(w), dir := s.dir - {name})
        else s.(sweep := Some(w))
      else s
    case SweepEnd =>
      if s.sweep.Some? && s.sweep.value.todo == {} then s.(active := s.sweep.value.count, sweep := None) else s
  }

  ghost function After(s: State, run: seq<Event>): State {
    if run == [] then s else Step(After(s, run[..|run| - 1]), run[|run| - 1])
  }

  function Started(dir: Dir, now: int): State {
    State(|LiveNames(dir, now - REPORT_TTL)|, dir, map[], None, now)
  }

  ghost function Live(s: State): nat {
    |LiveNames(s.dir, s.now - REPORT_TTL)|
  }

  // ---------- The cap ----------

  /** A run with its books kept: how many reservations the last finished sweep failed to count (the
      promotions in flight when it stored the counter, and those committed behind its listing), how
      many were committed behind the listing of the sweep under way, and the worst of the former. */
  datatype Ledger = Ledger(s: State, drift: nat, missed: nat, worst: nat)

  ghost function Record(l: Ledger, e: Event): Ledger {
    var s' := Step(l.s, e);
    match e
    case SweepStart => l.(s := s', missed := if l.s.sweep.None? then 0 else l.missed)
    case Commit(_) => l.(s := s', missed := if s' == l.s then l.missed else l.missed + 1)
    case SweepEnd =>
      if l.s.sweep.Some? && l.s.sweep.value.todo == {} then
        var drift := |l.s.flights| + l.missed;
        l.(s := s', drift := drift, worst := if drift > l.worst then drift else l.worst)
      else l
    case _ => l.(s := s')
  }

  /** The books after a run from given books. */
  ghost function Books(l: Ledger, run: seq<Event>): Ledger {
    if run == [] then l else Record(Books(l, run[..|run| - 1]), run[|run| - 1])
  }

  /** The books opened at a state with no sweep under way. */
  function Opened(s: State): Ledger {
    Ledger(s, 0, 0, 0)
  }

  lemma {:induction false} BooksFollowRun(l: Ledger, run: seq<Event>)
    ensures Books(l, run).s == After(l.s, run)
  {
    if run != [] {
      BooksFollowRun(l, run[..|run| - 1]);
    }
  }

  /** The live files outside the sweep's remaining list. */
  ghost function Passed(s: State): set<string>
    requires s.sweep.Some?
  {
    LiveNames(s.dir, s.now - REPORT_TTL) - s.sweep.value.todo
  }

  /** Live reports and promotions in flight never exceed the counter by more than the drift. */
  ghost predicate Balanced(l: Ledger, start: nat) {
    && Live(l.s) + |l.s.flights| <= l.s.active + l.drift
    && l.drift <= l.worst
    && Live(l.s) + |l.s.flights| <= (if start > MAX_ACTIVE_TOTAL + l.worst then start else MAX_ACTIVE_TOTAL + l.worst)
    && (l.s.sweep.Some? ==>
          l.s.sweep.value.cutoff <= l.s.now - REPORT_TTL && |Passed(l.s)| <= l.s.sweep.value.count + l.missed)
  }

  /** Writing or removing a temporary file changes no live name; publishing one adds at most its own. */
  lemma TmpNotLive(dir: Dir, id: string, e: DirEntry, cutoff: int)
    ensures LiveNames(dir[TmpOf(id) := e], cutoff) == LiveNames(dir, cutoff)
    ensures LiveNames(dir - {TmpOf(id)}, cutoff) == LiveNames(dir, cutoff)
  {
    NamesApart(id, id);
  }

  lemma PublishAddsOne(dir: Dir, id: string, e: DirEntry, cutoff: int)
    ensures LiveNames((dir - {TmpOf(id)})[PathOf(id) := e], cutoff) <= LiveNames(dir, cutoff) + {PathOf(id)}
  {
  }

  lemma FewerLiveLater(dir: Dir, cutoff: int, cutoff': int)
    requires cutoff <= cutoff'
    ensures LiveNames(dir, cutoff') <= LiveNames(dir, cutoff)
  {
  }

  /** The live files within given bounds of what they were: in all, and among the names passed. */
  ghost predicate AtMostMore(s: State, s': State, live: nat, passed: nat) {
    && Live(s') <= Live(s) + live
    && (s.sweep.Some? && s'.sweep.Some? ==> |Passed(s')| <= |Passed(s)| + passed)
  }

  lemma SubsetStep(s: State, s': State)
    requires LiveNames(s'.dir, s'.now - REPORT_TTL) <= LiveNames(s.dir, s.now - REPORT_TTL)
    requires s'.sweep == s.sweep
    ensures AtMostMore(s, s', 0, 0)
  {
    hide LiveNames;
    SubsetSize(LiveNames(s'.dir, s'.now - REPORT_TTL), LiveNames(s.dir, s.now - REPORT_TTL));
    if s.sweep.Some? {
      SubsetSize(Passed(s'), Passed(s));
    }
  }

  lemma OneMoreStep(s: State, s': State, name: string)
    requires LiveNames(s'.dir, s'.now - REPORT_TTL) <= LiveNames(s.dir, s.now - REPORT_TTL) + {name}
    requires s'.sweep == s.sweep
    ensures AtMostMore(s, s', 1, 1)
  {
    hide LiveNames;
    AtMostOneMore(LiveNames(s'.dir, s'.now - REPORT_TTL), LiveNames(s.dir, s.now - REPORT_TTL), name);
    if s.sweep.Some? {
      AtMostOneMore(Passed(s'), Passed(s), name);
    }
  }

  lemma WaitStep(l: Ledger, t: int, start: nat)
    requires Balanced(l, start)
    ensures Balanced(Record(l, Wait(t)), start)
  {
    hide LiveNames, Live, Passed;
    if t >= l.s.now {
      FewerLiveLater(l.s.dir, l.s.now - REPORT_TTL, t - REPORT_TTL);
      SubsetStep(l.s, l.s.(now := t));
    }
  }

  lemma ReserveStep(l: Ledger, pid: nat, start: nat)
    requires Balanced(l, start)
    ensures Balanced(Record(l, Reserve(pid)), start)
  {
    hide LiveNames;
    SubsetStep(l.s, Step(l.s, Reserve(pid)));
  }

  lemma StageCounts(s: State, e: Event)
    requires e.Stage?
    ensures var s' := Step(s, e);
            && AtMostMore(s, s', 0, 0) && |s'.flights| == |s.flights|
            && s'.active == s.active && s'.now == s.now && s'.sweep == s.sweep
  {
    hide LiveNames, PathOf, TmpOf;
    if e.pid in s.flights && s.flights[e.pid].Reserved? {
      var r := Report(e.id, e.kind, e.target, s.now, e.data);
      TmpNotLive(s.dir, e.id, Doc(r), s.now - REPORT_TTL);
      KeysSize(s.flights, e.pid, Staged(r));
    }
    SubsetStep(s, Step(s, e));
  }

  lemma CommitCounts(s: State, pid: nat)
    requires pid in s.flights && s.flights[pid].Staged?
    ensures var s' := Step(s, Commit(pid));
            && AtMostMore(s, s', 1, 1) && |s'.flights| == |s.flights| - 1
            && s'.active == s.active && s'.now == s.now && s'.sweep == s.sweep
  {
    hide LiveNames, PathOf, TmpOf, AtMostMore;
    var s' := Step(s, Commit(pid));
    var r := s.flights[pid].report;
    var cutoff := s.now - REPORT_TTL;
    KeysSize(s.flights, pid, Reserved);
    PublishAddsOne(s.dir, r.id, Doc(r), cutoff);
    OneMoreStep(s, s', PathOf(r.id));
  }

  lemma AbortCounts(s: State, pid: nat)
    requires pid in s.flights
    ensures var s' := Step(s, Abort(pid));
            && AtMostMore(s, s', 0, 0) && |s'.flights| == |s.flights| - 1
            && s'.active == s.active - 1 && s'.now == s.now && s'.sweep == s.sweep
  {
    hide LiveNames, PathOf, TmpOf;
    KeysSize(s.flights, pid, Reserved);
    if s.flights[pid].Staged? {
      TmpNotLive(s.dir, s.flights[pid].report.id, Garbage, s.now - REPORT_TTL);
    }
    SubsetStep(s, Step(s, Abort(pid)));
  }

  lemma WriteFailedCounts(s: State, e: Event)
    requires e.WriteFailed? && e.pid in s.flights && s.flights[e.pid].Reserved?
    ensures var s' := Step(s, e);
            && AtMostMore(s, s', 0, 0) && |s'.flights| == |s.flights| - 1
            && s'.active == s.active - 1 && s'.now == s.now && s'.sweep == s.sweep
  {
    hide LiveNames, PathOf, TmpOf;
    KeysSize(s.flights, e.pid, Reserved);
    if e.left.Some? {
      TmpNotLive(s.dir, e.id, e.left.value, s.now - REPORT_TTL);
    }
    SubsetStep(s, Step(s, e));
  }

  lemma WriteFailedStep(l: Ledger, e: Event, start: nat)
    requires Balanced(l, start) && e.WriteFailed?
    ensures Balanced(Record(l, e), start)
  {
    hide Live, Passed, WithLeftover;
    if e.pid in l.s.flights && l.s.flights[e.pid].Reserved? {
      WriteFailedCounts(l.s, e);
    }
  }

  lemma StageStep(l: Ledger, e: Event, start: nat)
    requires Balanced(l, start) && e.Stage?
    ensures Balanced(Record(l, e), start)
  {
    hide Live, Passed, Step;
    StageCounts(l.s, e);
  }

  lemma CommitStep(l: Ledger, pid: nat, start: nat)
    requires Balanced(l, start)
    ensures Balanced(Record(l, Commit(pid)), start)
  {
    hide Live, Passed, Step;
    if pid in l.s.flights && l.s.flights[pid].Staged? {
      CommitCounts(l.s, pid);
      assert Step(l.s, Commit(pid)).flights != l.s.flights;
    } else {
      CommitIdle(l.s, pid);
    }
  }

  lemma CommitIdle(s: State, pid: nat)
    requires !(pid in s.flights && s.flights[pid].Staged?)
    ensures Step(s, Commit(pid)) == s
  {
  }

  lemma AbortStep(l: Ledger, pid: nat, start: nat)
    requires Balanced(l, start)
    ensures Balanced(Record(l, Abort(pid)), start)
  {
    hide Live, Passed;
    if pid in l.s.flights {
      AbortCounts(l.s, pid);
    }
  }

  lemma LiveNamesAreNames(dir: Dir, cutoff: int)
    ensures LiveNames(dir, cutoff) <= dir.Keys
  {
  }

  lemma NothingPassed(s: State)
    requires s.sweep == None
    ensures |Passed(Step(s, SweepStart))| == 0 && Live(Step(s, SweepStart)) == Live(s)
  {
    hide LiveNames;
    LiveNamesAreNames(s.dir, s.now - REPORT_TTL);
    assert Passed(Step(s, SweepStart)) == {};
  }

  lemma SweepStartStep(l: Ledger, start: nat)
    requires Balanced(l, start)
    ensures Balanced(Record(l, SweepStart), start)
  {
    hide Live, Passed;
    if l.s.sweep.None? {
      NothingPassed(l.s);
    }
  }

  /** Visiting a name alone: it leaves the list, counted if live at the cutoff, and removed if it is
      a report that was not. */
  lemma VisitOne(s: State, name: string)
    requires s.sweep.Some? && name in s.sweep.value.todo
    ensures var cutoff, s' := s.sweep.value.cutoff, Step(s, SweepVisit(name));
            && s'.flights == s.flights && s'.now == s.now && s'.active == s.active
            && s'.sweep == Some(Sweep(s.sweep.value.todo - {name}, cutoff,
                                      s.sweep.value.count + if name in LiveNames(s.dir, cutoff) then 1 else 0))
            && s'.dir == s.dir - (Expired(s.dir, cutoff) * {name})
  {
  }

  /** The names a sweep visits and removes: reports that were not captured after its cutoff. */
  function Expired(dir: Dir, cutoff: int): set<string> {
    set name | name in dir && HasSuffix(name, ".json") && dir[name].Doc? && dir[name].report.capturedAt <= cutoff
  }

  /** Removing what is expired at a cutoff touches nothing that is live at it or later. */
  lemma RemoveExpired(dir: Dir, name: string, cutoff: int, cutoff': int)
    requires cutoff <= cutoff'
    ensures var dir' := dir - (Expired(dir, cutoff) * {name});
            && LiveNames(dir', cutoff') == LiveNames(dir, cutoff')
            && Expired(dir', cutoff) == Expired(dir, cutoff) - {name}
    ensures LiveNames(dir, cutoff') <= LiveNames(dir, cutoff)
  {
  }

  lemma PassOne<T>(live: set<T>, todo: set<T>, e: T)
    ensures |live - (todo - {e})| <= |live - todo| + if e in live then 1 else 0
  {
    if e in live {
      AtMostOneMore(live - (todo - {e}), live - todo, e);
    } else {
      assert live - (todo - {e}) == live - todo;
    }
  }

  lemma VisitCounts(s: State, name: string)
    requires s.sweep.Some? && name in s.sweep.value.todo && s.sweep.value.cutoff <= s.now - REPORT_TTL
    ensures var s' := Step(s, SweepVisit(name));
            && Live(s') == Live(s) && s'.flights == s.flights && s'.now == s.now && s'.active == s.active
            && s'.sweep.Some? && s'.sweep.value.cutoff == s.sweep.value.cutoff
            && |Passed(s')| - s'.sweep.value.count <= |Passed(s)| - s.sweep.value.count
  {
    hide LiveNames, Step, Expired;
    var cutoff := s.sweep.value.cutoff;
    VisitOne(s, name);
    RemoveExpired(s.dir, name, cutoff, s.now - REPORT_TTL);
    PassOne(LiveNames(s.dir, s.now - REPORT_TTL), s.sweep.value.todo, name);
  }

  lemma SweepVisitStep(l: Ledger, name: string, start: nat)
    requires Balanced(l, start)
    ensures Balanced(Record(l, SweepVisit(name)), start)
  {
    hide Live, Step, Passed;
    if l.s.sweep.Some? && name in l.s.sweep.value.todo {
      VisitCounts(l.s, name);
    } else {
      VisitIdle(l.s, name);
    }
  }

  lemma VisitIdle(s: State, name: string)
    requires !(s.sweep.Some? && name in s.sweep.value.todo)
    ensures Step(s, SweepVisit(name)) == s
  {
  }

  lemma SweepEndStep(l: Ledger, start: nat)
    requires Balanced(l, start)
    ensures Balanced(Record(l, SweepEnd), start)
  {
    hide LiveNames;
    var s := l.s;
    if s.sweep.Some? && s.sweep.value.todo == {} {
      assert Passed(s) == LiveNames(s.dir, s.now - REPORT_TTL);
    }
  }

  lemma BalancedStep(l: Ledger, e: Event, start: nat)
    requires Balanced(l, start)
    ensures Balanced(Record(l, e), start)
  {
    hide Balanced, Record;
    match e
    case Wait(t) => WaitStep(l, t, start);
    case Reserve(pid) => ReserveStep(l, pid, start);
    case Stage(_, _, _, _, _) => StageStep(l, e, start);
    case WriteFailed(_, _, _) => WriteFailedStep(l, e, start);
    case Commit(pid) => CommitStep(l, pid, start);
    case Abort(pid) => AbortStep(l, pid, start);
    case SweepStart => SweepStartStep(l, start);
    case SweepVisit(name) => SweepVisitStep(l, name, start);
    case SweepEnd => SweepEndStep(l, start);
  }

  lemma {:induction false} RunBalanced(l: Ledger, run: seq<Event>, start: nat)
    requires Balanced(l, start)
    ensures Balanced(Books(l, run), start)
  {
    if run != [] {
      RunBalanced(l, run[..|run| - 1], start);
      BalancedStep(Books(l, run[..|run| - 1]), run[|run| - 1], start);
    }
  }

  /** The cap, over every interleaving of promotions with sweeps: live reports and promotions in flight
      stay within 2000 and the worst drift a sweep has left, so within exactly 2000 if every sweep
      found no promotion beside it. */
  lemma CapWithDrift(dir: Dir, now: int, run: seq<Event>)
    requires |LiveNames(dir, now - REPORT_TTL)| <= MAX_ACTIVE_TOTAL
    ensures var l := Books(Opened(Started(dir, now)), run);
            && l.s == After(Started(dir, now), run)
            && Live(l.s) + |l.s.flights| <= l.s.active + l.drift
            && Live(l.s) + |l.s.flights| <= MAX_ACTIVE_TOTAL + l.worst
  {
    var l := Opened(Started(dir, now));
    RunBalanced(l, run, |LiveNames(dir, now - REPORT_TTL)|);
    BooksFollowRun(l, run);
  }

  /** A sweep that ends with no promotion in flight and none committed behind its listing leaves no
      drift; and from any state without drift the excess over 2000, if there is one, never grows as
      long as the later sweeps leave none. */
  lemma QuietSweepRestores(l: Ledger, start: nat, run: seq<Event>)
    requires Balanced(l, start)
    requires l.s.sweep.Some? && l.s.sweep.value.todo == {} && l.s.flights == map[] && l.missed == 0
    ensures var l0 := Record(l, SweepEnd);
            var l1 := Books(Opened(l0.s), run);
            && l0.drift == 0
            && l1.s == After(l0.s, run)
            && (l1.worst == 0 ==>
                  Live(l1.s) + |l1.s.flights| <= if Live(l0.s) > MAX_ACTIVE_TOTAL then Live(l0.s) else MAX_ACTIVE_TOTAL)
  {
    BalancedStep(l, SweepEnd, start);
    var l0 := Record(l, SweepEnd);
    RunBalanced(Opened(l0.s), run, Live(l0.s));
    BooksFollowRun(Opened(l0.s), run);
  }

  // ---------- The drift is real ----------

  predicate SweepFree(run: seq<Event>) {
    forall i :: 0 <= i < |run| ==> !run[i].SweepStart? && !run[i].SweepVisit? && !run[i].SweepEnd?
  }

  /** Names nobody has used: distinct, and not in the directory. */
  ghost predicate Unused(dir: Dir, ids: seq<string>) {
    && (forall i :: 0 <= i < |ids| ==> PathOf(ids[i]) !in dir)
    && (forall i, j :: 0 <= i < j < |ids| ==> ids[i] != ids[j])
  }

  lemma {:induction false} AfterConcat(s: State, x: seq<Event>, y: seq<Event>)
    ensures After(s, x + y) == After(After(s, x), y)
  {
    hide Step;
    if y == [] {
      assert x + y == x;
    } else {
      AfterConcat(s, x, y[..|y| - 1]);
      assert (x + y)[..|x + y| - 1] == x + y[..|y| - 1];
    }
  }

  lemma AfterOne(s: State, e: Event)
    ensures After(s, [e]) == Step(s, e)
  {
    hide Step;
    assert [e][..0] == [];
  }

  /** Failing every promotion in flight gives back its reservation, whether or not it is still counted. */
  lemma {:induction false} AbortAll(s: State) returns (run: seq<Event>)
    ensures SweepFree(run)
    ensures var s' := After(s, run);
            s'.flights == map[] && s'.active == s.active - |s.flights| && s'.now == s.now && s'.sweep == s.sweep
            && LiveNames(s'.dir, s.now - REPORT_TTL) == LiveNames(s.dir, s.now - REPORT_TTL)
            && (forall id :: PathOf(id) in s'.dir ==> PathOf(id) in s.dir)
    decreases |s.flights|
  {
    hide LiveNames;
    if s.flights == map[] {
      run := [];
    } else {
      var pid :| pid in s.flights;
      var s1 := Step(s, Abort(pid));
      KeysSize(s.flights, pid, Reserved);
      if s.flights[pid].Staged? {
        TmpNotLive(s.dir, s.flights[pid].report.id, Garbage, s.now - REPORT_TTL);
      }
      AfterOne(s, Abort(pid));
      var rest := AbortAll(s1);
      AfterConcat(s, [Abort(pid)], rest);
      run := [Abort(pid)] + rest;
    }
  }

  ghost function Promotion(id: string): seq<Event> {
    [Reserve(0), Stage(0, id, "", "", ""), Commit(0)]
  }

  /** One promotion from start to end, alone: one more reservation, one more live report. */
  lemma PromotionAlone(s: State, id: string)
    requires s.flights == map[] && s.active < MAX_ACTIVE_TOTAL && PathOf(id) !in s.dir
    ensures var s' := After(s, Promotion(id));
            s'.flights == map[] && s'.active == s.active + 1 && s'.sweep == s.sweep && s'.now == s.now
            && Live(s') == Live(s) + 1
            && s'.dir.Keys <= s.dir.Keys + {PathOf(id)}
  {
    hide LiveNames, PathOf, TmpOf, After;
    var e1, e2, e3 := Reserve(0), Stage(0, id, "", "", ""), Commit(0);
    assert Promotion(id) == [e1] + [e2] + [e3];
    AfterConcat(s, [e1] + [e2], [e3]);
    AfterConcat(s, [e1], [e2]);
    AfterOne(s, e1);
    AfterOne(Step(s, e1), e2);
    AfterOne(Step(Step(s, e1), e2), e3);
    NewReportIsLive(s.dir, Report(id, "", "", s.now, ""), s.now - REPORT_TTL);
  }

  lemma NewReportIsLive(dir: Dir, r: Report, cutoff: int)
    requires PathOf(r.id) !in dir && r.capturedAt > cutoff
    ensures var dir' := (dir[TmpOf(r.id) := Doc(r)] - {TmpOf(r.id)})[PathOf(r.id) := Doc(r)];
            |LiveNames(dir', cutoff)| == |LiveNames(dir, cutoff)| + 1
            && dir'.Keys <= dir.Keys + {PathOf(r.id)}
  {
    hide LiveNames, PathOf, TmpOf;
    NamesApart(r.id, r.id);
    TmpNotLive(dir, r.id, Doc(r), cutoff);
    TmpNotLive(dir[TmpOf(r.id) := Doc(r)], r.id, Doc(r), cutoff);
    var dir1 := dir[TmpOf(r.id) := Doc(r)] - {TmpOf(r.id)};
    AddLiveName(dir1, PathOf(r.id), Doc(r), cutoff);
    LiveNamesAreNames(dir1, cutoff);
  }

  lemma AddLiveName(dir: Dir, name: string, e: DirEntry, cutoff: int)
    requires IsLive(name, e, cutoff)
    ensures LiveNames(dir[name := e], cutoff) == LiveNames(dir, cutoff) + {name}
  {
  }

  /** Any number of promotions one after another, as long as the counter admits them. */
  lemma {:induction false} Fill(s: State, ids: seq<string>) returns (run: seq<Event>)
    requires s.flights == map[] && s.active + |ids| <= MAX_ACTIVE_TOTAL && Unused(s.dir, ids)
    ensures SweepFree(run)
    ensures var s' := After(s, run);
            s'.flights == map[] && s'.sweep == s.sweep && s'.now == s.now && Live(s') == Live(s) + |ids|
    decreases |ids|
  {
    hide LiveNames, PathOf;
    if ids == [] {
      run := [];
    } else {
      PromotionAlone(s, ids[0]);
      var s1 := After(s, Promotion(ids[0]));
      forall i | 1 <= i < |ids|
        ensures PathOf(ids[i]) !in s1.dir
      {
        NamesApart(ids[0], ids[i]);
      }
      var rest := Fill(s1, ids[1..]);
      AfterConcat(s, Promotion(ids[0]), rest);
      run := Promotion(ids[0]) + rest;
    }
  }

  /** From any state between sweeps, live reports can reach 2000 plus what the counter fails to count. */
  lemma Overshoot(s: State, ids: seq<string>) returns (run: seq<Event>)
    requires Unused(s.dir, ids) && |ids| == MAX_ACTIVE_TOTAL - s.active + |s.flights|
    ensures SweepFree(run) && Live(After(s, run)) == Live(s) + |s.flights| + MAX_ACTIVE_TOTAL - s.active
  {
    hide LiveNames, Step, After;
    var abort := AbortAll(s);
    var s1 := After(s, abort);
    assert forall i :: 0 <= i < |ids| ==> PathOf(ids[i]) !in s1.dir;
    var fill := Fill(s1, ids);
    AfterConcat(s, abort, fill);
    run := abort + fill;
  }

  lemma SafeWhenCounted(s: State, run: seq<Event>)
    requires s.sweep == None && Live(s) + |s.flights| <= s.active <= MAX_ACTIVE_TOTAL && SweepFree(run)
    ensures Live(After(s, run)) <= MAX_ACTIVE_TOTAL
  {
    hide LiveNames, Step, After, Books, Record;
    RunBalanced(Opened(s), run, Live(s) + |s.flights|);
    BooksFollowRun(Opened(s), run);
    NoSweepNoDrift(Opened(s), run);
  }

  /** Until the next sweep the cap is safe exactly when the counter covers every live report and every
      promotion in flight; whatever it fails to cover can be on disk above 2000. */
  lemma CapHoldsIffCounted(s: State, ids: seq<string>)
    requires s.sweep == None && s.active <= MAX_ACTIVE_TOTAL
    requires Unused(s.dir, ids) && |ids| == MAX_ACTIVE_TOTAL - s.active + |s.flights|
    ensures exists run ::
              SweepFree(run) && Live(After(s, run)) == MAX_ACTIVE_TOTAL + Live(s) + |s.flights| - s.active
    ensures Live(s) + |s.flights| <= s.active
            <==> forall run :: SweepFree(run) ==> Live(After(s, run)) <= MAX_ACTIVE_TOTAL
  {
    hide Live, Step, After, SweepFree;
    var run := Overshoot(s, ids);
    assert SweepFree(run) && Live(After(s, run)) == MAX_ACTIVE_TOTAL + Live(s) + |s.flights| - s.active;
    if Live(s) + |s.flights| <= s.active {
      forall run | SweepFree(run)
        ensures Live(After(s, run)) <= MAX_ACTIVE_TOTAL
      {
        SafeWhenCounted(s, run);
      }
    }
  }

  lemma {:induction false} NoSweepNoDrift(l: Ledger, run: seq<Event>)
    requires SweepFree(run)
    ensures Books(l, run).worst == l.worst
  {
    hide Step;
    if run != [] {
      NoSweepNoDrift(l, run[..|run| - 1]);
    }
  }

  // ---------- Whole sweeps ----------

  ghost predicate OnlyVisits(run: seq<Event>) {
    forall i :: 0 <= i < |run| ==> run[i].SweepVisit?
  }

  ghost function WholeSweep(visits: seq<Event>): seq<Event> {
    [SweepStart] + visits + [SweepEnd]
  }

  /** Every name is visited, in whatever order and however often. */
  ghost predicate Covers(visits: seq<Event>, names: set<string>) {
    OnlyVisits(visits) && forall name :: name in names ==> SweepVisit(name) in visits
  }

  /** What visits alone have done so far to a sweep: the names gone from its list are counted if live at
      its cutoff and removed if expired at it. */
  ghost predicate Visited(s: State, s': State)
    requires s.sweep.Some?
  {
    && s'.flights == s.flights && s'.now == s.now && s'.active == s.active
    && s'.sweep.Some?
    && var w, w' := s.sweep.value, s'.sweep.value;
    && w'.todo <= w.todo && w'.cutoff == w.cutoff
    && w'.count == w.count + |LiveNames(s.dir, w.cutoff) * (w.todo - w'.todo)|
    && s'.dir == s.dir - (Expired(s.dir, w.cutoff) * (w.todo - w'.todo))
  }

  lemma NothingVisited(s: State)
    requires s.sweep.Some?
    ensures Visited(s, s)
  {
    hide LiveNames, Expired;
    var w := s.sweep.value;
    assert w.todo - w.todo == {};
    assert LiveNames(s.dir, w.cutoff) * {} == {} && Expired(s.dir, w.cutoff) * {} == {};
    assert s.dir - {} == s.dir;
  }

  /** Taking the expired names out of a directory keeps its live names, and the other expired ones. */
  lemma NotYetRemoved(dir: Dir, done: set<string>, cutoff: int)
    ensures LiveNames(dir - (Expired(dir, cutoff) * done), cutoff) == LiveNames(dir, cutoff)
    ensures Expired(dir - (Expired(dir, cutoff) * done), cutoff) == Expired(dir, cutoff) - done
  {
  }

  lemma VisitedStep(s: State, s': State, name: string)
    requires s.sweep.Some? && Visited(s, s') && name in s'.sweep.value.todo
    ensures Visited(s, Step(s', SweepVisit(name)))
  {
    hide LiveNames, Expired, Step;
    var w, w' := s.sweep.value, s'.sweep.value;
    var done, live, expired := w.todo - w'.todo, LiveNames(s.dir, w.cutoff), Expired(s.dir, w.cutoff);
    VisitOne(s', name);
    NotYetRemoved(s.dir, done, w.cutoff);
    assert w.todo - (w'.todo - {name}) == done + {name};
    CountOneMore(live, done, name);
    RemoveOneMore(s.dir, expired, done, name);
  }

  lemma CountOneMore<T>(live: set<T>, done: set<T>, e: T)
    requires e !in done
    ensures |live * (done + {e})| == |live * done| + if e in live then 1 else 0
  {
    assert live * (done + {e}) == live * done + if e in live then {e} else {};
  }

  lemma RemoveOneMore<K, V>(m: map<K, V>, gone: set<K>, done: set<K>, k: K)
    requires k !in done
    ensures m - (gone * done) - ((gone - done) * {k}) == m - (gone * (done + {k}))
  {
    assert gone * (done + {k}) == gone * done + (gone - done) * {k};
  }

  /** Whatever names are visited in whatever order, and each one visited has left the list. */
  lemma {:induction false} VisitsDone(s: State, visits: seq<Event>)
    requires s.sweep.Some? && OnlyVisits(visits)
    ensures Visited(s, After(s, visits))
    ensures forall name :: SweepVisit(name) in visits ==> name !in After(s, visits).sweep.value.todo
  {
    hide Step, Visited;
    if visits == [] {
      NothingVisited(s);
    } else {
      var init, ev := visits[..|visits| - 1], visits[|visits| - 1];
      VisitsDone(s, init);
      InAppend(init, ev);
      assert visits == init + [ev];
      var s1 := After(s, init);
      VisitedHasSweep(s, s1);
      if ev.name in s1.sweep.value.todo {
        VisitedStep(s, s1, ev.name);
        VisitOne(s1, ev.name);
      } else {
        VisitIdle(s1, ev.name);
      }
    }
  }

  lemma VisitedHasSweep(s: State, s': State)
    requires s.sweep.Some? && Visited(s, s')
    ensures s'.sweep.Some? && s'.sweep.value.todo <= s.sweep.value.todo
  {
  }

  /** In whatever order it visits the names, a sweep that runs alone sets the counter to the number of live
      reports and removes exactly the expired ones. */
  lemma SweepAlone(s: State, visits: seq<Event>)
    requires s.sweep == None && Covers(visits, s.dir.Keys)
    ensures var s' := After(s, WholeSweep(visits));
            s' == s.(active := Live(s), dir := s.dir - Expired(s.dir, s.now - REPORT_TTL)) && Live(s') == Live(s)
  {
    hide LiveNames, Expired, After, OnlyVisits, Step, Live;
    LiveIs(s);
    var cutoff := s.now - REPORT_TTL;
    var s1 := s.(sweep := Some(Sweep(s.dir.Keys, cutoff, 0)));
    StartAndEnd(s);
    VisitsDone(s1, visits);
    AfterOne(s, SweepStart);
    AfterConcat(s, [SweepStart], visits);
    AfterConcat(s, [SweepStart] + visits, [SweepEnd]);
    var s2 := After(s1, visits);
    assert s2.sweep.value.todo == {};
    AfterOne(s2, SweepEnd);
    StartAndEnd(s2);
    LiveNamesAreNames(s.dir, cutoff);
    ExpiredAreNames(s.dir, cutoff);
    assert s.dir.Keys - {} == s.dir.Keys;
    WithinAll(LiveNames(s.dir, cutoff), s.dir.Keys);
    WithinAll(Expired(s.dir, cutoff), s.dir.Keys);
    NotYetRemoved(s.dir, s.dir.Keys, cutoff);
  }

  lemma {:induction false} SomeVisits(names: set<string>) returns (visits: seq<Event>)
    ensures Covers(visits, names)
    decreases names
  {
    if names == {} {
      visits := [];
    } else {
      var name :| name in names;
      var rest := SomeVisits(names - {name});
      visits := rest + [SweepVisit(name)];
      InAppend(rest, SweepVisit(name));
    }
  }

  lemma LiveIs(s: State)
    ensures forall t: State :: t.now == s.now ==> Live(t) == |LiveNames(t.dir, s.now - REPORT_TTL)|
  {
  }

  lemma WithinAll<T>(part: set<T>, all: set<T>)
    requires part <= all
    ensures part * all == part
  {
  }

  lemma StartAndEnd(s: State)
    ensures s.sweep == None ==> Step(s, SweepStart) == s.(sweep := Some(Sweep(s.dir.Keys, s.now - REPORT_TTL, 0)))
    ensures s.sweep.Some? && s.sweep.value.todo == {} ==>
              Step(s, SweepEnd) == s.(active := s.sweep.value.count, sweep := None)
  {
  }

  lemma ExpiredAreNames(dir: Dir, cutoff: int)
    ensures Expired(dir, cutoff) <= dir.Keys
  {
  }

  lemma {:induction false} BooksConcat(l: Ledger, x: seq<Event>, y: seq<Event>)
    ensures Books(l, x + y) == Books(Books(l, x), y)
  {
    hide Record;
    if y == [] {
      assert x + y == x;
    } else {
      BooksConcat(l, x, y[..|y| - 1]);
      assert (x + y)[..|x + y| - 1] == x + y[..|y| - 1];
    }
  }

  lemma {:induction false} VisitsMissNothing(l: Ledger, run: seq<Event>)
    requires OnlyVisits(run)
    ensures Books(l, run).missed == l.missed
  {
    hide Step;
    if run != [] {
      VisitsMissNothing(l, run[..|run| - 1]);
    }
  }

  /** The worst drift, not the last, bounds the reports: a later quiet sweep reports no drift while
      the excess of the earlier one is still on disk. */
  lemma LastDriftDoesNotBound(s: State, ids: seq<string>) returns (run: seq<Event>)
    requires s.sweep == None && Live(s) == s.active <= MAX_ACTIVE_TOTAL
    requires Unused(s.dir, ids) && |ids| == MAX_ACTIVE_TOTAL - s.active + |s.flights|
    ensures var l := Books(Ledger(s, |s.flights|, 0, |s.flights|), run);
            l.drift == 0 && Live(l.s) == MAX_ACTIVE_TOTAL + |s.flights|
  {
    hide LiveNames, Step, After, Books, Expired;
    var l := Ledger(s, |s.flights|, 0, |s.flights|);
    var abort := AbortAll(s);
    var s1 := After(s, abort);
    assert forall i :: 0 <= i < |ids| ==> PathOf(ids[i]) !in s1.dir;
    assert Live(s1) == Live(s);
    var fill := Fill(s1, ids);
    hide Live, Unused, SweepFree;
    AfterConcat(s, abort, fill);
    var first := abort + fill;
    var s2 := After(s, first);
    var visits := SomeVisits(s2.dir.Keys);
    SweepAlone(s2, visits);
    var sweep := WholeSweep(visits);
    run := first + sweep;
    BooksConcat(l, first, sweep);
    BooksFollowRun(l, first);
    BooksFollowRun(Books(l, first), sweep);
    hide WholeSweep, Covers;
    QuietSweepLeavesNoDrift(Books(l, first), visits);
  }

  lemma QuietSweepLeavesNoDrift(l: Ledger, visits: seq<Event>)
    requires l.s.sweep == None && l.s.flights == map[]
    requires Covers(visits, l.s.dir.Keys) && After(l.s, WholeSweep(visits)).sweep == None
    ensures Books(l, WholeSweep(visits)).drift == 0
  {
    hide Step, After, Books, Record;
    BooksConcat(l, [SweepStart] + visits, [SweepEnd]);
    BooksConcat(l, [SweepStart], visits);
    BooksOne(l, SweepStart);
    var l1 := Books(l, [SweepStart]);
    StartMissesNothing(l);
    VisitsMissNothing(l1, visits);
    var l2 := Books(l1, visits);
    BooksOne(l2, SweepEnd);
    VisitsKeepFlights(l1, visits);
    BooksFollowRun(l, WholeSweep(visits));
    EndRecords(l2);
  }

  lemma BooksOne(l: Ledger, e: Event)
    ensures Books(l, [e]) == Record(l, e)
  {
    hide Record;
    assert [e][..0] == [];
  }

  lemma StartMissesNothing(l: Ledger)
    requires l.s.sweep == None
    ensures Record(l, SweepStart).missed == 0 && Record(l, SweepStart).s.flights == l.s.flights
    ensures Record(l, SweepStart).s.sweep.Some?
  {
  }

  lemma {:induction false} VisitsKeepFlights(l: Ledger, run: seq<Event>)
    requires OnlyVisits(run) && l.s.sweep.Some?
    ensures Books(l, run).s.flights == l.s.flights && Books(l, run).s.sweep.Some?
  {
    if run != [] {
      VisitsKeepFlights(l, run[..|run| - 1]);
    }
  }

  lemma EndRecords(l: Ledger)
    requires l.s.sweep.Some? && Record(l, SweepEnd).s.sweep == None
    ensures Record(l, SweepEnd).drift == |l.s.flights| + l.missed
  {
  }

  lemma UnusedShrinks(dir: Dir, gone: set<string>, ids: seq<string>)
    requires Unused(dir, ids)
    ensures Unused(dir - gone, ids)
  {
    hide PathOf;
  }

  /** From any directory below the cap: one promotion reserves, a sweep runs beside it, and the store
      goes on to hold 2001 live reports. */
  lemma CapCanBeExceeded(dir: Dir, now: int, ids: seq<string>) returns (run: seq<Event>)
    requires |LiveNames(dir, now - REPORT_TTL)| < MAX_ACTIVE_TOTAL
    requires Unused(dir, ids) && |ids| == MAX_ACTIVE_TOTAL + 1 - |LiveNames(dir, now - REPORT_TTL)|
    ensures Live(After(Started(dir, now), run)) == MAX_ACTIVE_TOTAL + 1
  {
    hide LiveNames, After, Expired;
    var s0 := Started(dir, now);
    var s1 := Step(s0, Reserve(0));
    AfterOne(s0, Reserve(0));
    assert s1 == s0.(active := s0.active + 1, flights := map[0 := Reserved]);
    hide Step;
    var visits := SomeVisits(s1.dir.Keys);
    SweepAlone(s1, visits);
    var s2 := After(s1, WholeSweep(visits));
    UnusedShrinks(dir, Expired(s1.dir, now - REPORT_TTL), ids);
    assert |s2.flights| == 1 && s2.active == Live(s2) == s0.active;
    hide Unused, Live;
    var rest := Overshoot(s2, ids);
    AfterConcat(s0, [Reserve(0)], WholeSweep(visits));
    AfterConcat(s0, [Reserve(0)] + WholeSweep(visits), rest);
    run := [Reserve(0)] + WholeSweep(visits) + rest;
  }

  // ---------- Permanent links are frozen ----------

  /** What a reader is served for an id. */
  function GetSpec(s: State, id: string): Option<Report> {
    if !ValidID(id) || PathOf(id) !in s.dir || !s.dir[PathOf(id)].Doc? then None
    else if s.now - s.dir[PathOf(id)].report.capturedAt > REPORT_TTL then None
    else Some(s.dir[PathOf(id)].report)
  }

  /** The steps of a promotion that draw an id. */
  predicate Draws(e: Event) {
    e.Stage? || e.WriteFailed?
  }

  ghost predicate DrawnBy(run: seq<Event>, id: string) {
    exists i :: 0 <= i < |run| && Draws(run[i]) && run[i].id == id
  }

  /** Random ids never repeat. */
  ghost predicate FreshIDs(run: seq<Event>) {
    && (forall i :: 0 <= i < |run| && Draws(run[i]) ==> ValidID(run[i].id))
    && (forall i, j :: 0 <= i < j < |run| && Draws(run[i]) && Draws(run[j]) ==> run[i].id != run[j].id)
  }

  /** Promotions in flight have their own ids, all of them drawn in the run. */
  ghost predicate OwnIDs(s: State, run: seq<Event>) {
    && (forall p :: p in s.flights && s.flights[p].Staged? ==> DrawnBy(run, s.flights[p].report.id))
    && (forall p, q :: p in s.flights && q in s.flights && p != q && s.flights[p].Staged? && s.flights[q].Staged? ==>
          s.flights[p].report.id != s.flights[q].report.id)
  }

  lemma FreshInit(run: seq<Event>)
    requires run != [] && FreshIDs(run)
    ensures FreshIDs(run[..|run| - 1])
    ensures Draws(run[|run| - 1]) ==> !DrawnBy(run[..|run| - 1], run[|run| - 1].id)
    ensures forall id :: DrawnBy(run[..|run| - 1], id) ==> DrawnBy(run, id)
    ensures Draws(run[|run| - 1]) ==> DrawnBy(run, run[|run| - 1].id)
  {
  }

  lemma OwnIDsStep(s: State, run: seq<Event>, run': seq<Event>, e: Event)
    requires OwnIDs(s, run)
    requires forall id :: DrawnBy(run, id) ==> DrawnBy(run', id)
    requires Draws(e) ==> !DrawnBy(run, e.id) && DrawnBy(run', e.id)
    ensures OwnIDs(Step(s, e), run')
  {
    hide PathOf, TmpOf, IsLive, HasSuffix, DrawnBy;
  }

  lemma {:induction false} RunOwnIDs(s: State, run: seq<Event>)
    requires s.flights == map[] && FreshIDs(run)
    ensures OwnIDs(After(s, run), run)
  {
    if run != [] {
      FreshInit(run);
      RunOwnIDs(s, run[..|run| - 1]);
      OwnIDsStep(After(s, run[..|run| - 1]), run[..|run| - 1], run, run[|run| - 1]);
    }
  }

  /** The report is on disk as it was published, or is at least 24 hours old; nothing on its way to
      disk can overwrite it; and a sweep under way only removes what is 24 hours old by now. */
  ghost predicate Kept(s: State, id: string, r: Report) {
    && (PathOf(id) in s.dir ==> s.dir[PathOf(id)] == Doc(r))
    && (s.now - r.capturedAt < REPORT_TTL ==> PathOf(id) in s.dir)
    && NotInFlight(s, id)
    && CutoffOld(s)
  }

  ghost predicate NotInFlight(s: State, id: string) {
    forall p :: p in s.flights && s.flights[p].Staged? ==> s.flights[p].report.id != id
  }

  ghost predicate CutoffOld(s: State) {
    s.sweep.Some? ==> s.sweep.value.cutoff <= s.now - REPORT_TTL
  }

  lemma CutoffOldStep(s: State, e: Event)
    requires CutoffOld(s)
    ensures CutoffOld(Step(s, e))
  {
    hide PathOf, TmpOf, IsLive, HasSuffix;
  }

  lemma {:induction false} RunCutoffOld(s: State, run: seq<Event>)
    requires CutoffOld(s)
    ensures CutoffOld(After(s, run))
  {
    hide Step;
    if run != [] {
      RunCutoffOld(s, run[..|run| - 1]);
      CutoffOldStep(After(s, run[..|run| - 1]), run[|run| - 1]);
    }
  }

  /** No step, of any other promotion or of the sweep, disturbs a published report. */
  lemma KeptStep(s: State, id: string, r: Report, e: Event)
    requires Kept(s, id, r) && (e.Stage? ==> e.id != id)
    ensures Kept(Step(s, e), id, r)
  {
    hide PathOf, TmpOf, HasSuffix;
    CutoffOldStep(s, e);
    match e
    case Stage(_, x, _, _, _) => NamesApart(x, id);
    case WriteFailed(_, x, _) => NamesApart(x, id);
    case Commit(p) =>
      if p in s.flights && s.flights[p].Staged? {
        NamesApart(s.flights[p].report.id, id);
      }
    case Abort(p) =>
      if p in s.flights && s.flights[p].Staged? {
        NamesApart(s.flights[p].report.id, id);
      }
    case SweepVisit(name) => NamesApart(id, id);
    case _ =>
  }

  lemma CommitKeeps(s: State, pid: nat, run: seq<Event>)
    requires pid in s.flights && s.flights[pid].Staged? && OwnIDs(s, run) && CutoffOld(s)
    ensures var r := s.flights[pid].report; Kept(Step(s, Commit(pid)), r.id, r)
  {
    hide PathOf, TmpOf, DrawnBy;
  }

  lemma {:induction false} KeptForever(s: State, id: string, r: Report, run: seq<Event>)
    requires Kept(s, id, r) && forall i :: 0 <= i < |run| && run[i].Stage? ==> run[i].id != id
    ensures Kept(After(s, run), id, r)
  {
    hide Step, Kept;
    if run != [] {
      KeptForever(s, id, r, run[..|run| - 1]);
      KeptStep(After(s, run[..|run| - 1]), id, r, run[|run| - 1]);
    }
  }

  lemma FreshPrefix(before: seq<Event>, e: Event, later: seq<Event>)
    requires FreshIDs(before + [e] + later)
    ensures FreshIDs(before)
  {
    hide ValidID;
    assert forall i :: 0 <= i < |before| ==> (before + [e] + later)[i] == before[i];
  }

  /** An id drawn in a run with fresh ids is drawn by no other step of it. */
  lemma DrawnOnce(before: seq<Event>, e: Event, later: seq<Event>, id: string)
    requires FreshIDs(before + [e] + later) && (DrawnBy(before, id) || (Draws(e) && e.id == id))
    ensures Draws(e) ==> !DrawnBy(before, e.id)
    ensures ValidID(id) && forall j :: 0 <= j < |later| && Draws(later[j]) ==> later[j].id != id
  {
    hide ValidID;
    var all := before + [e] + later;
    var n := |before|;
    assert all[n] == e;
    assert forall i :: 0 <= i < n ==> all[i] == before[i];
    assert forall j :: 0 <= j < |later| ==> all[n + 1 + j] == later[j];
    if DrawnBy(before, id) {
      var i :| 0 <= i < n && Draws(before[i]) && before[i].id == id;
      assert Draws(all[i]);
    }
  }

  /** Once a promotion commits, every read of its id less than 24 hours after the capture gives the
      report as it was captured, and every read more than 24 hours after gives nothing, through any
      interleaving of other promotions, rollbacks and sweeps. */
  lemma LinksAreFrozen(dir: Dir, now: int, before: seq<Event>, pid: nat, later: seq<Event>)
    requires FreshIDs(before + [Commit(pid)] + later)
    requires var s := After(Started(dir, now), before); pid in s.flights && s.flights[pid].Staged?
    ensures var r := After(Started(dir, now), before).flights[pid].report;
            var s := After(Started(dir, now), before + [Commit(pid)] + later);
            && ValidID(r.id)
            && (s.now - r.capturedAt < REPORT_TTL ==> GetSpec(s, r.id) == Some(r))
            && (s.now - r.capturedAt > REPORT_TTL ==> GetSpec(s, r.id) == None)
  {
    hide Step, After, FreshIDs, DrawnBy, ValidID, PathOf, TmpOf;
    var s0 := Started(dir, now);
    var s := After(s0, before);
    var r := s.flights[pid].report;
    FreshPrefix(before, Commit(pid), later);
    RunOwnIDs(s0, before);
    RunCutoffOld(s0, before);
    CommitKeeps(s, pid, before);
    DrawnOnce(before, Commit(pid), later, r.id);
    AfterAround(s0, before, Commit(pid), later);
    KeptForever(Step(s, Commit(pid)), r.id, r, later);
  }

  lemma AfterAround(s: State, before: seq<Event>, e: Event, later: seq<Event>)
    ensures After(s, before + [e] + later) == After(Step(After(s, before), e), later)
  {
    hide Step, After;
    AfterConcat(s, before + [e], later);
    AfterConcat(s, before, [e]);
    AfterOne(After(s, before), e);
  }

  /** The same across a restart: a report found on disk is as frozen as one committed since, as long as its
      id is not drawn again. */
  lemma LinksOnDiskAreFrozen(dir: Dir, now: int, id: string, run: seq<Event>)
    requires ValidID(id) && PathOf(id) in dir && dir[PathOf(id)].Doc?
    requires forall i :: 0 <= i < |run| && run[i].Stage? ==> run[i].id != id
    ensures var r := dir[PathOf(id)].report;
            var s := After(Started(dir, now), run);
            && (s.now - r.capturedAt < REPORT_TTL ==> GetSpec(s, id) == Some(r))
            && (s.now - r.capturedAt > REPORT_TTL ==> GetSpec(s, id) == None)
  {
    hide Step, After, ValidID, PathOf;
    KeptForever(Started(dir, now), id, dir[PathOf(id)].report, run);
  }

  // ---------- Leftovers of failed writes ----------

  /** What stands under a temporary name is neither counted, nor swept, nor served. */
  lemma LeftoverIsInert(s: State, id: string, e: DirEntry, cutoff: int)
    ensures var s' := s.(dir := s.dir[TmpOf(id) := e]);
            && LiveNames(s'.dir, cutoff) == LiveNames(s.dir, cutoff)
            && Expired(s'.dir, cutoff) == Expired(s.dir, cutoff)
            && Live(s') == Live(s)
            && forall x :: GetSpec(s', x) == GetSpec(s, x)
  {
    hide HasSuffix, PathOf, TmpOf, ValidID;
    NamesApart(id, id);
    forall x
      ensures TmpOf(id) != PathOf(x)
    {
      NamesApart(id, x);
    }
    TmpNotLive(s.dir, id, e, cutoff);
    TmpNotLive(s.dir, id, e, s.now - REPORT_TTL);
  }

  ghost predicate LeftBehind(s: State, id: string, e: DirEntry) {
    TmpOf(id) in s.dir && s.dir[TmpOf(id)] == e && NotInFlight(s, id)
  }

  lemma LeftBehindStep(s: State, id: string, e: DirEntry, ev: Event)
    requires LeftBehind(s, id, e) && (Draws(ev) ==> ev.id != id)
    ensures LeftBehind(Step(s, ev), id, e)
  {
    hide PathOf, TmpOf, HasSuffix;
    match ev
    case Stage(_, x, _, _, _) => NamesApart(x, id);
    case WriteFailed(_, x, _) => NamesApart(x, id);
    case Commit(p) =>
      if p in s.flights && s.flights[p].Staged? {
        NamesApart(s.flights[p].report.id, id);
        NamesApart(id, s.flights[p].report.id);
      }
    case Abort(p) =>
      if p in s.flights && s.flights[p].Staged? {
        NamesApart(s.flights[p].report.id, id);
      }
    case SweepVisit(name) => NamesApart(id, id);
    case _ =>
  }

  lemma {:induction false} LeftBehindForever(s: State, id: string, e: DirEntry, run: seq<Event>)
    requires LeftBehind(s, id, e) && forall i :: 0 <= i < |run| && Draws(run[i]) ==> run[i].id != id
    ensures LeftBehind(After(s, run), id, e)
  {
    hide Step, LeftBehind, Draws;
    if run != [] {
      LeftBehindForever(s, id, e, run[..|run| - 1]);
      LeftBehindStep(After(s, run[..|run| - 1]), id, e, run[|run| - 1]);
    }
  }

  /** What a failed write leaves behind stays for good: no promotion, rollback or sweep ever removes it. */
  lemma LeftoversStay(dir: Dir, now: int, before: seq<Event>, pid: nat, id: string, e: DirEntry, later: seq<Event>)
    requires FreshIDs(before + [WriteFailed(pid, id, Some(e))] + later)
    requires var s := After(Started(dir, now), before); pid in s.flights && s.flights[pid].Reserved?
    ensures var s := After(Started(dir, now), before + [WriteFailed(pid, id, Some(e))] + later);
            TmpOf(id) in s.dir && s.dir[TmpOf(id)] == e
  {
    hide After, FreshIDs, DrawnBy, PathOf, TmpOf;
    var s0 := Started(dir, now);
    var ev := WriteFailed(pid, id, Some(e));
    FreshPrefix(before, ev, later);
    DrawnOnce(before, ev, later, id);
    RunOwnIDs(s0, before);
    AfterAround(s0, before, ev, later);
    LeftBehindForever(Step(After(s0, before), ev), id, e, later);
  }

  // ---------- The store ----------

  /** Where a promotion can fail after its reservation. */
  datatype Fault = NoFault | NewIDFails | WriteFails(left: Option<DirEntry>) | RenameFails

  datatype Promoted = AtCapacity | Failed | Link(id: string)

  /** The counter and the directory, together with what the running promotions and the running sweep
      hold in their local variables. */
  class Store {
    var active: int
    var dir: Dir
    var flights: map<nat, Flight>
    var sweep: Option<Sweep>
    var now: int

    function View(): State
      reads this
    {
      State(active, dir, flights, sweep, now)
    }

    /** A restart recovers the counter from the directory. */
    constructor (dir: Dir, now: int)
      ensures View() == Started(dir, now)
    {
      this.dir, this.now, flights, sweep, active := dir, now, map[], None, 0;
      new;
      active := CountActive();
    }

    method CountActive() returns (n: int)
      ensures n == Live(View())
      ensures n == |set name | && name in dir && dir[name].Doc? && HasSuffix(name, ".json")
                               && now - dir[name].report.capturedAt < 86_400_000_000_000|
    {
      LiveNamesSpelledOut(dir, now);
      hide HasSuffix, LiveNames, Expired, IsLive, CountSoFar, LeftSoFar;
      var cutoff := now - REPORT_TTL;
      var todo := dir.Keys;
      n := 0;
      SweepTurns(dir, cutoff);
      while todo != {}
        invariant todo <= dir.Keys && n == CountSoFar(dir, cutoff, todo)
        decreases todo
      {
        var name :| name in todo;
        SweepTurn(dir, cutoff, todo, name);
        if IsLive(name, dir[name], cutoff) {
          n := n + 1;
        }
        todo := todo - {name};
      }
    }

    method Reserve(pid: nat) returns (ok: bool)
      requires pid !in flights
      modifies this
      ensures View() == Step(old(View()), Event.Reserve(pid))
      ensures ok <==> old(active) < 2000
    {
      if active >= MAX_ACTIVE_TOTAL {
        return false;
      }
      active, flights := active + 1, flights[pid := Reserved];
      return true;
    }

    method WriteTmp(pid: nat, id: string, kind: string, target: string, data: string, fault: Fault) returns (ok: bool)
      requires pid in flights && flights[pid].Reserved?
      modifies this
      ensures ok <==> !fault.WriteFails?
      ensures View() == Step(old(View()), if ok then Stage(pid, id, kind, target, data) else WriteFailed(pid, id, fault.left))
    {
      if fault.WriteFails? {
        if fault.left.Some? {
          dir := dir[TmpOf(id) := fault.left.value];
        }
        active, flights := active - 1, flights - {pid};
        return false;
      }
      var r := Report(id, kind, target, now, data);
      dir, flights := dir[TmpOf(id) := Doc(r)], flights[pid := Staged(r)];
      return true;
    }

    method Rename(pid: nat)
      requires pid in flights && flights[pid].Staged?
      modifies this
      ensures View() == Step(old(View()), Commit(pid))
    {
      var r := flights[pid].report;
      dir, flights := (dir - {TmpOf(r.id)})[PathOf(r.id) := Doc(r)], flights - {pid};
    }

    method RollBack(pid: nat)
      requires pid in flights
      modifies this
      ensures View() == Step(old(View()), Abort(pid))
    {
      if flights[pid].Staged? {
        dir := dir - {TmpOf(flights[pid].report.id)};
      }
      active, flights := active - 1, flights - {pid};
    }

    /** A promotion that nothing interrupts: refused without a trace at the cap, rolled back on any
        failure, without a trace unless the write leaves part of the temporary file, and otherwise
        readable at once. */
    method Promote(pid: nat, newID: string, kind: string, target: string, data: string, fault: Fault)
      returns (result: Promoted)
      requires pid !in flights && ValidID(newID) && PathOf(newID) !in dir && TmpOf(newID) !in dir
      modifies this
      ensures result.AtCapacity? <==> old(active) >= MAX_ACTIVE_TOTAL
      ensures !result.Link? ==>
                var left := if result.Failed? && fault.WriteFails? then fault.left else None;
                View() == old(View()).(dir := WithLeftover(old(dir), newID, left))
      ensures result.Link? <==> old(active) < MAX_ACTIVE_TOTAL && fault.NoFault?
      ensures result.Link? ==>
                var r := Report(newID, kind, target, now, data);
                && result.id == newID && GetSpec(View(), newID) == Some(r)
                && View() == old(View()).(active := old(active) + 1, dir := old(dir)[PathOf(newID) := Doc(r)])
    {
      hide PathOf, TmpOf, ValidID, HasSuffix;
      NamesApart(newID, newID);
      var ok := Reserve(pid);
      if !ok {
        return AtCapacity;
      }
      if fault.NewIDFails? {
        RollBack(pid);
        assert flights == old(flights);
        return Failed;
      }
      ok := WriteTmp(pid, newID, kind, target, data, fault);
      if !ok {
        assert flights == old(flights);
        return Failed;
      }
      if fault.RenameFails? {
        RollBack(pid);
        assert flights == old(flights) && dir == old(dir);
        return Failed;
      }
      Rename(pid);
      assert flights == old(flights);
      assert dir == old(dir)[PathOf(newID) := Doc(Report(newID, kind, target, now, data))];
      return Link(newID);
    }

    method Get(id: string) returns (r: Option<Report>)
      ensures r == GetSpec(View(), id)
      ensures r.Some? ==> id + ".json" in dir && dir[id + ".json"] == Doc(r.value)
      ensures r.Some? <==>
                && ValidID(id) && id + ".json" in dir && dir[id + ".json"].Doc?
                && now - dir[id + ".json"].report.capturedAt <= 86_400_000_000_000
    {
      if !ValidID(id) {
        return None;
      }
      if PathOf(id) !in dir || !dir[PathOf(id)].Doc? {
        return None;
      }
      var rep := dir[PathOf(id)].report;
      if now - rep.capturedAt > REPORT_TTL {
        return None;
      }
      return Some(rep);
    }

    /** One sweep that nothing interrupts: the counter becomes the number of live reports, and the
        expired ones, and nothing else, are gone. */
    method SweepOnce()
      modifies this
      ensures View() == old(View()).(active := Live(old(View())), dir := old(dir) - Expired(old(dir), now - REPORT_TTL))
    {
      hide HasSuffix, LiveNames, Expired, IsLive, CountSoFar, LeftSoFar;
      var cutoff := now - REPORT_TTL;
      ghost var was := dir;
      var todo, count := dir.Keys, 0;
      SweepTurns(was, cutoff);
      while todo != {}
        invariant todo <= was.Keys
        invariant dir == LeftSoFar(was, cutoff, todo) && count == CountSoFar(was, cutoff, todo)
        invariant flights == old(flights) && sweep == old(sweep) && now == old(now)
        decreases todo
      {
        var name :| name in todo;
        SweepTurn(was, cutoff, todo, name);
        if IsLive(name, dir[name], cutoff) {
          count := count + 1;
        } else if HasSuffix(name, ".json") && dir[name].Doc? {
          dir := dir - {name};
        }
        todo := todo - {name};
      }
      active := count;
    }
  }

  /** The counter and the directory of a loop over the names that has still to visit some of them. */
  ghost function CountSoFar(was: Dir, cutoff: int, todo: set<string>): nat {
    |LiveNames(was, cutoff) - todo|
  }

  ghost function LeftSoFar(was: Dir, cutoff: int, todo: set<string>): Dir {
    was - (Expired(was, cutoff) - todo)
  }

  lemma SweepTurns(was: Dir, cutoff: int)
    ensures CountSoFar(was, cutoff, was.Keys) == 0 && CountSoFar(was, cutoff, {}) == |LiveNames(was, cutoff)|
    ensures LeftSoFar(was, cutoff, was.Keys) == was && LeftSoFar(was, cutoff, {}) == was - Expired(was, cutoff)
  {
    hide LiveNames, Expired;
    assert LiveNames(was, cutoff) - {} == LiveNames(was, cutoff) && Expired(was, cutoff) - {} == Expired(was, cutoff);
    LiveNamesAreNames(was, cutoff);
    ExpiredAreNames(was, cutoff);
    assert Expired(was, cutoff) - was.Keys == {} && LiveNames(was, cutoff) - was.Keys == {};
  }

  lemma SweepTurn(was: Dir, cutoff: int, todo: set<string>, name: string)
    requires name in todo && todo <= was.Keys
    ensures CountSoFar(was, cutoff, todo - {name})
            == CountSoFar(was, cutoff, todo) + if IsLive(name, was[name], cutoff) then 1 else 0
    ensures LeftSoFar(was, cutoff, todo - {name}) ==
            if HasSuffix(name, ".json") && was[name].Doc? && !IsLive(name, was[name], cutoff)
            then LeftSoFar(was, cutoff, todo) - {name}
            else LeftSoFar(was, cutoff, todo)
    ensures name in LeftSoFar(was, cutoff, todo) && LeftSoFar(was, cutoff, todo)[name] == was[name]
  {
    hide HasSuffix;
    assert name in LiveNames(was, cutoff) <==> IsLive(name, was[name], cutoff);
    assert name in Expired(was, cutoff) <==>
           HasSuffix(name, ".json") && was[name].Doc? && !IsLive(name, was[name], cutoff);
    TakeOne(LiveNames(was, cutoff), todo, name);
    TakeOne(Expired(was, cutoff), todo, name);
    RemoveMore(was, Expired(was, cutoff) - todo, {name});
  }

  lemma TakeOne<T>(part: set<T>, todo: set<T>, e: T)
    requires e in todo
    ensures part - (todo - {e}) == if e in part then part - todo + {e} else part - todo
    ensures |part - (todo - {e})| == |part - todo| + if e in part then 1 else 0
  {
  }

  lemma RemoveMore<K, V>(m: map<K, V>, x: set<K>, y: set<K>)
    ensures m - (x + y) == m - x - y
  {
  }
}
