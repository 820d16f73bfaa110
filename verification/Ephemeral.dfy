/** The in-memory cache of finished results: a capped map that evicts its oldest entry by scanning,
    and a sweep by age. Times are in nanoseconds. */
module Ephemeral {
  import opened Collections
  import opened Wrappers

  const EPHEMERAL_TTL: int := 1_800_000_000_000
  const MAX_SIZE := 2000

  datatype Entry = Entry(kind: string, target: string, data: string, createdAt: int)

  type Entries = map<string, Entry>

  ghost predicate IsOldest(m: Entries, id: string) {
    id in m && forall k :: k in m ==> m[id].createdAt <= m[k].createdAt
  }

  /** What one Put may do: at the cap some oldest entry goes first, unless the scan settles on the
      empty id, which the code takes for "none found". */
  ghost predicate PutStep(m: Entries, m': Entries, id: string, e: Entry) {
    if |m| < MAX_SIZE then m' == m[id := e]
    else exists oldest :: IsOldest(m, oldest) && m' == (if oldest == "" then m else m - {oldest})[id := e]
  }

  function Survivors(m: Entries, now: int): Entries {
    map id | id in m && m[id].createdAt >= now - EPHEMERAL_TTL :: m[id]
  }

  /** A Put stores the new entry, changes no other, and drops nothing below the cap; at the cap exactly one
      entry goes, and none of the others is older. */
  lemma PutStepMeans(m: Entries, m': Entries, id: string, e: Entry)
    requires PutStep(m, m', id, e)
    ensures id in m' && m'[id] == e
    ensures forall k :: k in m' && k != id ==> k in m && m'[k] == m[k]
    ensures |m| < 2000 ==> m.Keys <= m'.Keys
    ensures |m| >= 2000 && "" !in m ==>
              exists gone :: gone in m && m'.Keys == m.Keys - {gone} + {id}
                             && forall k :: k in m ==> m[gone].createdAt <= m[k].createdAt
  {
    if |m| >= MAX_SIZE && "" !in m {
      var gone :| IsOldest(m, gone) && m' == (if gone == "" then m else m - {gone})[id := e];
      assert m'.Keys == m.Keys - {gone} + {id};
    }
  }

  // ---------- The queue it refines ----------

  datatype Item = Item(id: string, e: Entry)

  /** Items in order of creation, each id once. */
  ghost predicate Ordered(q: seq<Item>) {
    && (forall i, j :: 0 <= i < j < |q| ==> q[i].e.createdAt < q[j].e.createdAt)
    && (forall i, j :: 0 <= i < j < |q| ==> q[i].id != q[j].id)
  }

  /** The map holds exactly the items of a queue, oldest first, all created at different times. */
  ghost predicate Holds(m: Entries, q: seq<Item>) {
    && Ordered(q)
    && (forall x :: x in q ==> x.id in m && m[x.id] == x.e)
    && (forall id :: id in m ==> Item(id, m[id]) in q)
  }

  /** The clock has moved past every item. */
  ghost predicate AllBefore(q: seq<Item>, now: int) {
    forall x :: x in q ==> x.e.createdAt < now
  }

  ghost function Without(q: seq<Item>, id: string): seq<Item> {
    if q == [] then []
    else if q[|q| - 1].id == id then Without(q[..|q| - 1], id)
    else Without(q[..|q| - 1], id) + [q[|q| - 1]]
  }

  ghost function Young(q: seq<Item>, now: int): seq<Item> {
    if q == [] then []
    else if q[|q| - 1].e.createdAt < now - EPHEMERAL_TTL then Young(q[..|q| - 1], now)
    else Young(q[..|q| - 1], now) + [q[|q| - 1]]
  }

  /** A bounded queue: at the cap the head leaves, an item of the same id is replaced, the new one
      joins the end. */
  ghost function QueuePut(q: seq<Item>, id: string, e: Entry): seq<Item> {
    Without(if |q| >= MAX_SIZE then q[1..] else q, id) + [Item(id, e)]
  }

  // ---------- Refinement ----------

  lemma {:induction false} WithoutKeeps(q: seq<Item>, id: string)
    ensures forall x :: x in Without(q, id) <==> x in q && x.id != id
    ensures |Without(q, id)| <= |q|
  {
    if q != [] {
      var init, last := q[..|q| - 1], q[|q| - 1];
      WithoutKeeps(init, id);
      assert q == init + [last];
    }
  }

  lemma {:induction false} YoungKeeps(q: seq<Item>, now: int)
    ensures forall x :: x in Young(q, now) <==> x in q && x.e.createdAt >= now - EPHEMERAL_TTL
    ensures |Young(q, now)| <= |q|
  {
    if q != [] {
      var init, last := q[..|q| - 1], q[|q| - 1];
      YoungKeeps(init, now);
      assert q == init + [last];
    }
  }

  lemma OrderedAppend(q: seq<Item>, x: Item)
    requires Ordered(q)
    requires forall y :: y in q ==> y.e.createdAt < x.e.createdAt && y.id != x.id
    ensures Ordered(q + [x])
  {
    forall i | 0 <= i < |q|
      ensures q[i].e.createdAt < x.e.createdAt && q[i].id != x.id
    {
      assert q[i] in q;
    }
  }

  lemma {:induction false} WithoutOrdered(q: seq<Item>, id: string)
    requires Ordered(q)
    ensures Ordered(Without(q, id))
  {
    if q != [] {
      var init, last := q[..|q| - 1], q[|q| - 1];
      WithoutOrdered(init, id);
      WithoutKeeps(init, id);
      if last.id != id {
        OrderedAppend(Without(init, id), last);
      }
    }
  }

  lemma {:induction false} YoungOrdered(q: seq<Item>, now: int)
    requires Ordered(q)
    ensures Ordered(Young(q, now))
  {
    if q != [] {
      var init, last := q[..|q| - 1], q[|q| - 1];
      YoungOrdered(init, now);
      YoungKeeps(init, now);
      if last.e.createdAt >= now - EPHEMERAL_TTL {
        OrderedAppend(Young(init, now), last);
      }
    }
  }

  ghost function MapOf(q: seq<Item>): Entries {
    if q == [] then map[] else MapOf(q[..|q| - 1])[q[|q| - 1].id := q[|q| - 1].e]
  }

  lemma {:induction false} MapOfMembers(q: seq<Item>)
    requires Ordered(q)
    ensures Holds(MapOf(q), q) && |MapOf(q)| == |q|
  {
    if q != [] {
      var init, last := q[..|q| - 1], q[|q| - 1];
      MapOfMembers(init);
      LastIsNew(q);
      HoldsJoin(MapOf(init), init, last);
    }
  }

  lemma LastIsNew(q: seq<Item>)
    requires Ordered(q) && q != []
    ensures forall x :: x in q[..|q| - 1] ==> x.id != q[|q| - 1].id && x.e.createdAt < q[|q| - 1].e.createdAt
    ensures q == q[..|q| - 1] + [q[|q| - 1]]
  {
  }

  lemma HoldsJoin(m: Entries, q: seq<Item>, x: Item)
    requires Holds(m, q) && Ordered(q + [x])
    requires forall y :: y in q ==> y.id != x.id
    ensures Holds(m[x.id := x.e], q + [x]) && |m[x.id := x.e]| == |m| + 1
  {
    hide Ordered;
    assert x.id !in m;
    KeysSize(m, x.id, x.e);
    InAppend(q, x);
  }

  lemma HoldsSize(m: Entries, q: seq<Item>)
    requires Holds(m, q)
    ensures |m| == |q|
  {
    MapOfMembers(q);
    assert m == MapOf(q);
  }

  lemma HeadIsOldest(m: Entries, q: seq<Item>, oldest: string)
    requires Holds(m, q) && IsOldest(m, oldest)
    ensures q != [] && q[0].id == oldest
  {
    var x := Item(oldest, m[oldest]);
    var i :| 0 <= i < |q| && q[i] == x;
    assert q[0] in q;
  }

  lemma DropHead(m: Entries, q: seq<Item>)
    requires Holds(m, q) && q != []
    ensures Holds(m - {q[0].id}, q[1..])
  {
    var tail := q[1..];
    TailOrdered(q);
    assert forall x :: x in tail ==> x in q;
    forall id | id in m && id != q[0].id
      ensures Item(id, m[id]) in tail
    {
      InTail(q, Item(id, m[id]));
    }
  }

  lemma TailOrdered(q: seq<Item>)
    requires Ordered(q) && q != []
    ensures Ordered(q[1..]) && forall x :: x in q[1..] ==> x.id != q[0].id
  {
  }

  lemma Join(m: Entries, q: seq<Item>, id: string, e: Entry)
    requires Holds(m, q) && AllBefore(q, e.createdAt)
    ensures Holds(m[id := e], Without(q, id) + [Item(id, e)])
  {
    WithoutOrdered(q, id);
    WithoutKeeps(q, id);
    OrderedAppend(Without(q, id), Item(id, e));
  }

  /** With a clock that moves between Puts, a Put on the map is a Put on the queue. */
  lemma PutRefines(m: Entries, m': Entries, q: seq<Item>, id: string, e: Entry)
    requires Holds(m, q) && "" !in m && AllBefore(q, e.createdAt) && PutStep(m, m', id, e)
    ensures Holds(m', QueuePut(q, id, e))
  {
    HoldsSize(m, q);
    if |m| < MAX_SIZE {
      Join(m, q, id, e);
    } else {
      var oldest :| IsOldest(m, oldest) && m' == (if oldest == "" then m else m - {oldest})[id := e];
      HeadIsOldest(m, q, oldest);
      DropHead(m, q);
      assert forall x :: x in q[1..] ==> x in q;
      Join(m - {oldest}, q[1..], id, e);
    }
  }

  lemma SweepRefines(m: Entries, q: seq<Item>, now: int)
    requires Holds(m, q)
    ensures Holds(Survivors(m, now), Young(q, now))
  {
    YoungOrdered(q, now);
    YoungKeeps(q, now);
  }

  // ---------- Whole runs of the queue ----------

  datatype Event = Put(id: string, e: Entry) | Sweep(now: int)

  ghost function QueueStep(q: seq<Item>, ev: Event): seq<Item> {
    match ev
    case Put(id, e) => QueuePut(q, id, e)
    case Sweep(now) => Young(q, now)
  }

  ghost function QueueAfter(q: seq<Item>, run: seq<Event>): seq<Item> {
    if run == [] then q else QueueStep(QueueAfter(q, run[..|run| - 1]), run[|run| - 1])
  }

  ghost function Puts(run: seq<Event>): nat {
    if run == [] then 0 else Puts(run[..|run| - 1]) + if run[|run| - 1].Put? then 1 else 0
  }

  /** The queue never holds more than 2000 items. */
  lemma {:induction false} NeverOverCap(q: seq<Item>, run: seq<Event>)
    requires |q| <= MAX_SIZE
    ensures |QueueAfter(q, run)| <= MAX_SIZE
  {
    if run != [] {
      var init, ev := run[..|run| - 1], run[|run| - 1];
      NeverOverCap(q, init);
      var before := QueueAfter(q, init);
      match ev
      case Put(id, _) => WithoutKeeps(if |before| >= MAX_SIZE then before[1..] else before, id);
      case Sweep(now) => YoungKeeps(before, now);
    }
  }

  lemma InTail(q: seq<Item>, x: Item)
    requires x in q
    ensures x == q[0] || x in q[1..]
  {
    var i :| 0 <= i < |q| && q[i] == x;
    assert i > 0 ==> q[1..][i - 1] == x;
  }

  /** How many items stand behind this one. */
  ghost function Behind(q: seq<Item>, x: Item): nat {
    if q == [] || q[|q| - 1] == x then 0 else 1 + Behind(q[..|q| - 1], x)
  }

  lemma InInit(q: seq<Item>, x: Item)
    requires x in q && q[|q| - 1] != x
    ensures x in q[..|q| - 1]
  {
    assert q == q[..|q| - 1] + [q[|q| - 1]];
  }

  lemma {:induction false} BehindWithout(q: seq<Item>, id: string, x: Item)
    requires x in q && x.id != id
    ensures Behind(Without(q, id), x) <= Behind(q, x)
  {
    var init, last := q[..|q| - 1], q[|q| - 1];
    if last != x {
      InInit(q, x);
      BehindWithout(init, id, x);
      assert (Without(init, id) + [last])[..|Without(init, id)|] == Without(init, id);
    }
  }

  lemma {:induction false} BehindYoung(q: seq<Item>, now: int, x: Item)
    requires x in q && x.e.createdAt >= now - EPHEMERAL_TTL
    ensures Behind(Young(q, now), x) <= Behind(q, x)
  {
    var init, last := q[..|q| - 1], q[|q| - 1];
    if last != x {
      InInit(q, x);
      BehindYoung(init, now, x);
      assert (Young(init, now) + [last])[..|Young(init, now)|] == Young(init, now);
    }
  }

  /** An item with fewer than all the others behind it is not the head. */
  lemma {:induction false} BehindTail(q: seq<Item>, x: Item)
    requires x in q && Behind(q, x) < |q| - 1
    ensures x in q[1..] && Behind(q[1..], x) == Behind(q, x)
  {
    var init, last := q[..|q| - 1], q[|q| - 1];
    assert q[1..][|q| - 2] == last && q[1..][..|q| - 2] == init[1..];
    if last != x {
      InInit(q, x);
      BehindTail(init, x);
      assert forall y :: y in init[1..] ==> y in q[1..];
    }
  }

  lemma BehindPut(q: seq<Item>, id: string, e: Entry, x: Item)
    requires x in q && x.id != id && Behind(q, x) < MAX_SIZE - 1
    ensures x in QueuePut(q, id, e) && Behind(QueuePut(q, id, e), x) <= Behind(q, x) + 1
  {
    var rest := if |q| >= MAX_SIZE then q[1..] else q;
    if |q| >= MAX_SIZE {
      BehindTail(q, x);
    }
    WithoutKeeps(rest, id);
    BehindWithout(rest, id, x);
    assert QueuePut(q, id, e)[..|Without(rest, id)|] == Without(rest, id);
  }

  /** An entry less than 30 minutes old disappears only if its id is put again or at least 2000 later
      Puts happen. */
  lemma {:induction false} KeptWhileYoung(q: seq<Item>, x: Item, run: seq<Event>)
    requires x in q && Behind(q, x) == 0 && Puts(run) < MAX_SIZE
    requires forall i :: 0 <= i < |run| && run[i].Put? ==> run[i].id != x.id
    requires forall i :: 0 <= i < |run| && run[i].Sweep? ==> x.e.createdAt >= run[i].now - EPHEMERAL_TTL
    ensures x in QueueAfter(q, run) && Behind(QueueAfter(q, run), x) <= Puts(run)
    decreases |run|
  {
    if run != [] {
      var init, ev := run[..|run| - 1], run[|run| - 1];
      KeptWhileYoung(q, x, init);
      var before := QueueAfter(q, init);
      assert ev == run[|run| - 1];
      match ev
      case Put(id, e) => BehindPut(before, id, e, x);
      case Sweep(now) =>
        YoungKeeps(before, now);
        BehindYoung(before, now, x);
    }
  }

  // ---------- Whole runs of the cache ----------

  /** One step of the cache, whichever oldest entry the scan settles on. */
  ghost predicate CacheStep(m: Entries, ev: Event, m': Entries) {
    match ev
    case Put(id, e) => PutStep(m, m', id, e)
    case Sweep(now) => m' == Survivors(m, now)
  }

  /** The maps a run goes through, from the empty one. */
  ghost predicate CacheRun(maps: seq<Entries>, run: seq<Event>) {
    && |maps| == |run| + 1 && maps[0] == map[]
    && forall i :: 0 <= i < |run| ==> CacheStep(maps[i], run[i], maps[i + 1])
  }

  lemma RunExtends(maps: seq<Entries>, run: seq<Event>, ev: Event, m: Entries)
    requires CacheRun(maps, run) && CacheStep(maps[|run|], ev, m)
    ensures CacheRun(maps + [m], run + [ev])
  {
    hide CacheStep;
  }

  /** Nothing evicted or swept is newer than an entry that stays, whatever the clock does. */
  lemma NothingNewerLost(m: Entries, ev: Event, m': Entries, lost: string, kept: string)
    requires CacheStep(m, ev, m')
    requires lost in m && lost !in m' && kept in m && kept in m'
    ensures m[lost].createdAt <= m[kept].createdAt
  {
  }

  lemma SizeStep(m: Entries, ev: Event, m': Entries)
    requires CacheStep(m, ev, m') && |m| <= MAX_SIZE && "" !in m
    requires ev.Put? ==> ev.id != ""
    ensures |m'| <= MAX_SIZE && "" !in m'
  {
    match ev
    case Put(id, e) =>
      KeysSize(m, id, e);
      if |m| >= MAX_SIZE {
        var oldest :| IsOldest(m, oldest) && m' == (if oldest == "" then m else m - {oldest})[id := e];
        KeysSize(m, oldest, e);
        KeysSize(m - {oldest}, id, e);
      }
    case Sweep(now) =>
      SubMapSize(Survivors(m, now), m);
  }

  lemma SubMapSize(x: Entries, m: Entries)
    requires x.Keys <= m.Keys
    ensures |x| <= |m|
  {
    SubsetSize(x.Keys, m.Keys);
    assert |x| == |x.Keys| && |m| == |m.Keys|;
  }

  ghost predicate RealIDs(run: seq<Event>) {
    forall i :: 0 <= i < |run| && run[i].Put? ==> run[i].id != ""
  }

  lemma RunInit(maps: seq<Entries>, run: seq<Event>)
    requires CacheRun(maps, run) && run != []
    ensures CacheRun(maps[..|run|], run[..|run| - 1]) && maps[..|run|][|run| - 1] == maps[|run| - 1]
    ensures CacheStep(maps[|run| - 1], run[|run| - 1], maps[|run|])
  {
  }

  /** The cache never holds more than 2000 entries, whatever the clock does. */
  lemma {:induction false} CacheNeverOverCap(maps: seq<Entries>, run: seq<Event>)
    requires CacheRun(maps, run) && RealIDs(run)
    ensures |maps[|run|]| <= 2000 && "" !in maps[|run|]
    decreases |run|
  {
    hide CacheStep;
    if run != [] {
      RunInit(maps, run);
      CacheNeverOverCap(maps[..|run|], run[..|run| - 1]);
      SizeStep(maps[|run| - 1], run[|run| - 1], maps[|run|]);
    }
  }

  /** The Puts of other ids stamped at a time or later. */
  ghost function PutsFrom(run: seq<Event>, id: string, t: int): nat {
    if run == [] then 0
    else
      var ev := run[|run| - 1];
      PutsFrom(run[..|run| - 1], id, t) + if ev.Put? && ev.id != id && ev.e.createdAt >= t then 1 else 0
  }

  /** The entries of other ids stamped at a time or later. */
  ghost function Rivals(m: Entries, id: string, t: int): set<string> {
    set k | k in m && k != id && m[k].createdAt >= t
  }

  lemma RivalsStep(m: Entries, ev: Event, m': Entries, id: string, t: int)
    requires CacheStep(m, ev, m')
    ensures |Rivals(m', id, t)| <= |Rivals(m, id, t)|
                                   + if ev.Put? && ev.id != id && ev.e.createdAt >= t then 1 else 0
  {
    if ev.Put? && ev.id != id && ev.e.createdAt >= t {
      SubsetSize(Rivals(m', id, t), Rivals(m, id, t) + {ev.id});
    } else {
      SubsetSize(Rivals(m', id, t), Rivals(m, id, t));
    }
  }

  /** Each rival was put. */
  lemma {:induction false} RivalsWerePut(maps: seq<Entries>, run: seq<Event>, id: string, t: int)
    requires CacheRun(maps, run)
    ensures |Rivals(maps[|run|], id, t)| <= PutsFrom(run, id, t)
    decreases |run|
  {
    hide CacheStep;
    if run == [] {
      assert Rivals(maps[0], id, t) == {};
    } else {
      RunInit(maps, run);
      RivalsWerePut(maps[..|run|], run[..|run| - 1], id, t);
      hide Rivals;
      RivalsStep(maps[|run| - 1], run[|run| - 1], maps[|run|], id, t);
    }
  }

  /** The Put that decides what an id reads as. */
  ghost predicate LastPut(run: seq<Event>, id: string, i: int) {
    && 0 <= i < |run| && run[i].Put? && run[i].id == id
    && forall j :: i < j < |run| && run[j].Put? ==> run[j].id != id
  }

  /** The clock has not gone back behind the stamp, and no sweep came more than 30 minutes after it. */
  ghost predicate StillYoung(run: seq<Event>, i: int)
    requires 0 <= i < |run| && run[i].Put?
  {
    forall j {:trigger run[j]} :: i < j < |run| ==>
      match run[j]
      case Put(_, e) => e.createdAt >= run[i].e.createdAt
      case Sweep(now) => now <= run[i].e.createdAt + EPHEMERAL_TTL
  }

  /** An entry is evicted only in favour of at least 1999 others stamped no earlier. */
  lemma EvictionNeedsRivals(m: Entries, ev: Event, m': Entries, id: string)
    requires CacheStep(m, ev, m') && ev.Put? && ev.id != id && id in m
    ensures id in m' ==> m'[id] == m[id]
    ensures id !in m' ==> |Rivals(m, id, m[id].createdAt)| >= MAX_SIZE - 1
  {
    if id !in m' {
      assert IsOldest(m, id);
      assert Rivals(m, id, m[id].createdAt) == m.Keys - {id};
      assert |m.Keys| == |m|;
    }
  }

  /** Pigeonhole over the map scan, ties included: a result put into the cache is still there,
      unchanged, unless its id was put again, a sweep came more than 30 minutes after it, or at least
      2000 Puts of other ids are stamped no earlier than it. Only the Puts after it must not be stamped
      before it; what the clock did earlier does not matter. */
  lemma {:induction false} KeptUnlessCrowdedOut(maps: seq<Entries>, run: seq<Event>, i: nat)
    requires CacheRun(maps, run) && i < |run| && run[i].Put?
    requires LastPut(run, run[i].id, i) && StillYoung(run, i)
    requires PutsFrom(run, run[i].id, run[i].e.createdAt) < MAX_SIZE
    ensures run[i].id in maps[|run|] && maps[|run|][run[i].id] == run[i].e
    decreases |run|
  {
    hide Rivals;
    RunInit(maps, run);
    if i < |run| - 1 {
      var init, ev := run[..|run| - 1], run[|run| - 1];
      var id, t := run[i].id, run[i].e.createdAt;
      assert forall j :: 0 <= j < |init| ==> init[j] == run[j];
      KeptUnlessCrowdedOut(maps[..|run|], init, i);
      if ev.Put? {
        RivalsWerePut(maps[..|run|], init, id, t);
        EvictionNeedsRivals(maps[|run| - 1], ev, maps[|run|], id);
      }
    }
  }

  /** Nothing is read that was not put: an entry of the cache is what its id was last put as. */
  lemma {:induction false} EntriesWereLastPut(maps: seq<Entries>, run: seq<Event>, id: string) returns (i: nat)
    requires CacheRun(maps, run) && id in maps[|run|]
    ensures LastPut(run, id, i) && run[i].e == maps[|run|][id]
    decreases |run|
  {
    RunInit(maps, run);
    var ev := run[|run| - 1];
    if ev.Put? && ev.id == id {
      i := |run| - 1;
    } else {
      i := EntriesWereLastPut(maps[..|run|], run[..|run| - 1], id);
    }
  }

  // ---------- The cache and the queue ----------

  /** Every Put is later than the Puts before it, under a real id. */
  ghost predicate StrictClock(run: seq<Event>) {
    && (forall i, j :: 0 <= i < j < |run| && run[i].Put? && run[j].Put? ==> run[i].e.createdAt < run[j].e.createdAt)
    && (forall i :: 0 <= i < |run| && run[i].Put? ==> run[i].id != "")
  }

  lemma {:induction false} ItemsWerePut(q: seq<Item>, run: seq<Event>, x: Item)
    requires x in QueueAfter(q, run)
    ensures x in q || Put(x.id, x.e) in run
  {
    if run != [] {
      var init, ev := run[..|run| - 1], run[|run| - 1];
      assert run == init + [ev];
      var before := QueueAfter(q, init);
      match ev
      case Put(id, e) =>
        var rest := if |before| >= MAX_SIZE then before[1..] else before;
        WithoutKeeps(rest, id);
        InAppend(Without(rest, id), Item(id, e));
        if x != Item(id, e) {
          ItemsWerePut(q, init, x);
        }
      case Sweep(now) =>
        YoungKeeps(before, now);
        ItemsWerePut(q, init, x);
    }
  }

  lemma QueueBeforeNextPut(run: seq<Event>, e: Entry, id: string)
    requires StrictClock(run + [Put(id, e)])
    ensures AllBefore(QueueAfter([], run), e.createdAt)
    ensures forall x :: x in QueueAfter([], run) ==> x.id != ""
  {
    var all := run + [Put(id, e)];
    forall x | x in QueueAfter([], run)
      ensures x.e.createdAt < e.createdAt && x.id != ""
    {
      ItemsWerePut([], run, x);
      var i :| 0 <= i < |run| && run[i] == Put(x.id, x.e);
      assert all[i] == run[i] && all[|run|] == Put(id, e);
    }
  }

  lemma NoEmptyID(m: Entries, q: seq<Item>)
    requires Holds(m, q) && forall x :: x in q ==> x.id != ""
    ensures "" !in m
  {
  }

  /** Over any run with a strictly increasing clock the cache is the bounded queue, whatever order the
      scans visit the map in. */
  lemma {:induction false} RunRefines(maps: seq<Entries>, run: seq<Event>)
    requires CacheRun(maps, run) && StrictClock(run)
    ensures Holds(maps[|run|], QueueAfter([], run))
    decreases |run|
  {
    if run != [] {
      var init, ev := run[..|run| - 1], run[|run| - 1];
      assert CacheRun(maps[..|run|], init) && run == init + [ev];
      RunRefines(maps[..|run|], init);
      var m, q := maps[|run| - 1], QueueAfter([], init);
      match ev
      case Put(id, e) =>
        QueueBeforeNextPut(init, e, id);
        NoEmptyID(m, q);
        PutRefines(m, maps[|run|], q, id, e);
      case Sweep(now) => SweepRefines(m, q, now);
    }
  }

  lemma {:induction false} QueueAfterConcat(q: seq<Item>, x: seq<Event>, y: seq<Event>)
    ensures QueueAfter(q, x + y) == QueueAfter(QueueAfter(q, x), y)
  {
    hide QueueStep;
    if y == [] {
      assert x + y == x;
    } else {
      QueueAfterConcat(q, x, y[..|y| - 1]);
      assert (x + y)[..|x + y| - 1] == x + y[..|y| - 1];
    }
  }

  /** The cache never holds more than 2000 entries, and a result put into it is still there, unchanged,
      unless its id was put again, a sweep came more than 30 minutes after it, or at least 2000 more
      Puts have happened since. */
  lemma CacheKeepsYoung(maps: seq<Entries>, before: seq<Event>, id: string, e: Entry, later: seq<Event>)
    requires CacheRun(maps, before + [Put(id, e)] + later) && StrictClock(before + [Put(id, e)] + later)
    ensures var m := maps[|before| + 1 + |later|];
            && |m| <= MAX_SIZE
            && (Puts(later) < MAX_SIZE
                && (forall i :: 0 <= i < |later| && later[i].Put? ==> later[i].id != id)
                && (forall i :: 0 <= i < |later| && later[i].Sweep? ==> later[i].now <= e.createdAt + EPHEMERAL_TTL)
                ==> id in m && m[id] == e)
  {
    hide StrictClock, QueueStep, Holds, QueueAfter, QueuePut, CacheStep, Puts;
    var run := before + [Put(id, e)] + later;
    var m := maps[|run|];
    RunRefines(maps, run);
    hide CacheRun;
    SplitAtPut(before, id, e, later);
    HoldsSize(m, QueueAfter([], run));
    NeverOverCap([], run);
    if && Puts(later) < MAX_SIZE
       && (forall i :: 0 <= i < |later| && later[i].Put? ==> later[i].id != id)
       && (forall i :: 0 <= i < |later| && later[i].Sweep? ==> later[i].now <= e.createdAt + EPHEMERAL_TTL) {
      PutThenGet(QueueAfter([], before), id, e, later, m);
    }
  }

  lemma SplitAtPut(before: seq<Event>, id: string, e: Entry, later: seq<Event>)
    ensures QueueAfter([], before + [Put(id, e)] + later)
            == QueueAfter(QueuePut(QueueAfter([], before), id, e), later)
  {
    hide QueueAfter, QueuePut;
    QueueAfterConcat([], before + [Put(id, e)], later);
    QueueAfterConcat([], before, [Put(id, e)]);
    QueueAfterOne(QueueAfter([], before), id, e);
  }

  lemma QueueAfterOne(q: seq<Item>, id: string, e: Entry)
    ensures QueueAfter(q, [Put(id, e)]) == QueuePut(q, id, e)
  {
    assert [Put(id, e)][..0] == [];
  }

  /** The same for the cache: a result just put is still there, unchanged. */
  lemma PutThenGet(q: seq<Item>, id: string, e: Entry, run: seq<Event>, m: Entries)
    requires Puts(run) < MAX_SIZE && Holds(m, QueueAfter(QueuePut(q, id, e), run))
    requires forall i :: 0 <= i < |run| && run[i].Put? ==> run[i].id != id
    requires forall i :: 0 <= i < |run| && run[i].Sweep? ==> run[i].now <= e.createdAt + EPHEMERAL_TTL
    ensures id in m && m[id] == e
  {
    var x, q' := Item(id, e), QueuePut(q, id, e);
    assert q'[|q'| - 1] == x;
    KeptWhileYoung(q', x, run);
  }

  // ---------- The cache ----------

  class EphemeralCache {
    var entries: Entries
    /** The calls so far and the maps they went through. */
    ghost var run: seq<Event>
    ghost var maps: seq<Entries>

    ghost predicate Valid()
      reads this
    {
      CacheRun(maps, run) && entries == maps[|run|]
    }

    constructor ()
      ensures Valid() && run == [] && Holds(entries, [])
    {
      entries, run, maps := map[], [], [map[]];
    }

    method Put(id: string, kind: string, target: string, data: string, now: int)
      requires Valid()
      modifies this
      ensures Valid() && run == old(run) + [Event.Put(id, Entry(kind, target, data, now))]
      ensures PutStep(old(entries), entries, id, Entry(kind, target, data, now))
      ensures id in entries && entries[id] == Entry(kind, target, data, now)
      ensures "" !in old(entries) && |old(entries)| <= MAX_SIZE ==> |entries| <= MAX_SIZE
      ensures forall q {:trigger Holds(old(entries), q)} ::
                Holds(old(entries), q) && "" !in old(entries) && AllBefore(q, now) ==>
                Holds(entries, QueuePut(q, id, Entry(kind, target, data, now)))
    {
      ghost var was := entries;
      var e := Entry(kind, target, data, now);
      if |entries| >= MAX_SIZE {
        var oldestID := FindOldest();
        if oldestID != "" {
          entries := entries - {oldestID};
        }
        assert IsOldest(was, oldestID);
      }
      KeysSize(entries, id, e);
      entries := entries[id := e];
      RunExtends(maps, run, Event.Put(id, e), entries);
      run, maps := run + [Event.Put(id, e)], maps + [entries];
      forall q | Holds(was, q) && "" !in was && AllBefore(q, now)
        ensures Holds(entries, QueuePut(q, id, e))
      {
        PutRefines(was, entries, q, id, e);
      }
    }

    /** The scan, over the map in whatever order the iteration takes. */
    method FindOldest() returns (oldestID: string)
      requires |entries| > 0
      ensures IsOldest(entries, oldestID)
    {
      var oldestAt := 0;
      oldestID := "";
      var first := true;
      var todo := entries.Keys;
      while todo != {}
        invariant todo <= entries.Keys && (first <==> todo == entries.Keys)
        invariant !first ==> oldestID in entries && oldestAt == entries[oldestID].createdAt
        invariant forall k :: k in entries && k !in todo ==> oldestAt <= entries[k].createdAt
        decreases todo
      {
        var k :| k in todo;
        if first || entries[k].createdAt < oldestAt {
          oldestID, oldestAt, first := k, entries[k].createdAt, false;
        }
        todo := todo - {k};
      }
      assert entries.Keys != {};
    }

    /** What the id was last put as, and nothing else; certainly that as long as no later Put is stamped
        before it, no sweep came more than 30 minutes after it, and fewer than 2000 Puts of other ids are
        stamped no earlier. */
    method Get(id: string) returns (e: Option<Entry>)
      requires Valid()
      ensures e.Some? ==> exists i :: LastPut(run, id, i) && run[i].e == e.value
      ensures forall i :: LastPut(run, id, i) && StillYoung(run, i) && PutsFrom(run, id, run[i].e.createdAt) < MAX_SIZE ==>
                e == Some(run[i].e)
    {
      if id in entries {
        ghost var i := EntriesWereLastPut(maps, run, id);
      }
      forall i | LastPut(run, id, i) && StillYoung(run, i) && PutsFrom(run, id, run[i].e.createdAt) < MAX_SIZE
        ensures id in entries && entries[id] == run[i].e
      {
        KeptUnlessCrowdedOut(maps, run, i);
      }
      e := if id in entries then Some(entries[id]) else None;
    }

    method Sweep(now: int)
      requires Valid()
      modifies this
      ensures Valid() && run == old(run) + [Event.Sweep(now)]
      ensures forall k :: k in entries <==> k in old(entries) && now - old(entries)[k].createdAt <= 1_800_000_000_000
      ensures entries == Survivors(old(entries), now)
      ensures forall q {:trigger Holds(old(entries), q)} ::
                Holds(old(entries), q) ==> Holds(entries, Young(q, now))
    {
      ghost var was := entries;
      var todo := entries.Keys;
      while todo != {}
        invariant todo <= was.Keys && run == old(run) && maps == old(maps)
        invariant entries == map id | id in was && (id in todo || was[id].createdAt >= now - EPHEMERAL_TTL) :: was[id]
        decreases todo
      {
        var k :| k in todo;
        if entries[k].createdAt < now - EPHEMERAL_TTL {
          entries := entries - {k};
        }
        todo := todo - {k};
      }
      RunExtends(maps, run, Event.Sweep(now), entries);
      run, maps := run + [Event.Sweep(now)], maps + [entries];
      forall q | Holds(was, q)
        ensures Holds(entries, Young(q, now))
      {
        SweepRefines(was, q, now);
      }
    }
  }
}
