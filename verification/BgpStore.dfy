/** The BGP store: a file's routes loaded into an unpublished snapshot (trie, ASN index, count)
    that is then swapped in whole. */
module BgpStore {
  import opened Bits
  import opened BgpTrie
  import opened Cidr
  import opened Collections
  import opened RadixTrie
  import opened Wrappers

  /** The CIDR and address parsers, seen as functions of the text. */
  type ParseCIDR = string -> Option<IPNet>
  type ParseIP = string -> Option<Bytes>

  const MAX_ASN_ROUTES := 1000

  // ---------- What a file means ----------

  /** No prefix of the file is an IPv4-mapped IPv6 one, whose insertion would leave the byte slice. */
  ghost predicate Loadable(parse: ParseCIDR, routes: seq<Route>) {
    forall i :: 0 <= i < |routes| && parse(routes[i].prefix).Some? ==> Fits(parse(routes[i].prefix).value)
  }

  /** The routes whose prefix parses, in file order. */
  ghost function ValidRoutes(parse: ParseCIDR, routes: seq<Route>): seq<Route> {
    if routes == [] then []
    else
      var rest, r := ValidRoutes(parse, routes[..|routes| - 1]), routes[|routes| - 1];
      if parse(r.prefix).Some? then rest + [r] else rest
  }

  /** The same routes with the blocks their prefixes denote. */
  ghost function Loaded(parse: ParseCIDR, routes: seq<Route>): (log: seq<Entry<Route>>)
    requires Loadable(parse, routes)
    ensures ValidLog(log)
  {
    if routes == [] then []
    else
      var rest, r := Loaded(parse, routes[..|routes| - 1]), routes[|routes| - 1];
      if parse(r.prefix).Some? then rest + [Entry(BlockOf(parse(r.prefix).value), r)] else rest
  }

  /** The routes whose AS path passes through asn, each listed once, in order. */
  ghost function Through(routes: seq<Route>, asn: int): seq<Route> {
    if routes == [] then []
    else
      var rest, r := Through(routes[..|routes| - 1], asn), routes[|routes| - 1];
      if asn in r.asPath then rest + [r] else rest
  }

  /** The routes whose prefix denotes the same block as net, in order. */
  ghost function SamePrefix(parse: ParseCIDR, routes: seq<Route>, net: IPNet): seq<Route>
    requires Loadable(parse, routes) && Fits(net)
  {
    if routes == [] then []
    else
      var rest, r := SamePrefix(parse, routes[..|routes| - 1], net), routes[|routes| - 1];
      if parse(r.prefix).Some? && SameBlock(BlockOf(parse(r.prefix).value), BlockOf(net)) then rest + [r] else rest
  }

  /** The one-address prefix of the IPv4 address inside a mapped one. */
  ghost function HostNet(net: IPNet): (host: IPNet)
    requires IsMapped(net.ip)
    ensures Fits(host) && BlockOf(host) == Block(true, net.ip[12..], 32)
  {
    IPNet(net.ip[12..], 32)
  }

  /** Same family, same length, same network number. */
  ghost predicate SameBlock(x: Block, y: Block)
    requires ValidBlock(x) && ValidBlock(y)
  {
    x.v4 == y.v4 && x.ones == y.ones && NetworkOf(x.addr, x.ones) == NetworkOf(y.addr, y.ones)
  }

  /** How many distinct AS numbers the routes mention, route by route. */
  ghost function DistinctASNs(routes: seq<Route>): nat {
    if routes == [] then 0
    else
      var r := routes[|routes| - 1];
      DistinctASNs(routes[..|routes| - 1]) + |set asn | asn in r.asPath|
  }

  predicate IsDefaultText(r: Route) {
    r.prefix == "0.0.0.0/0" || r.prefix == "::/0"
  }

  lemma DefaultTexts()
    ensures forall r {:trigger IsDefaultText(r)} :: IsDefaultText(r) <==> r.prefix in {"0.0.0.0/0", "::/0"}
  {
  }

  ghost predicate HasDefaultText(routes: seq<Route>) {
    exists i :: 0 <= i < |routes| && IsDefaultText(routes[i])
  }

  /** What the store answers for an address: the longest match, unless a route of it is written
      as a default route. */
  ghost function Suppressed(routes: seq<Route>): seq<Route> {
    if HasDefaultText(routes) then [] else routes
  }

  // ---------- The same lists, position by position ----------

  /** The log has an entry for exactly the routes whose prefix parses, in file order. */
  lemma {:induction false} LoadedInOrder(parse: ParseCIDR, routes: seq<Route>) returns (at: seq<nat>)
    requires Loadable(parse, routes)
    ensures Positions(at, |routes|)
    ensures forall i :: 0 <= i < |routes| ==> (i in at <==> parse(routes[i].prefix).Some?)
    ensures |Loaded(parse, routes)| == |ValidRoutes(parse, routes)| == |at|
    ensures forall k :: 0 <= k < |at| ==>
              var r := routes[at[k]];
              && parse(r.prefix).Some? && ValidRoutes(parse, routes)[k] == r
              && Loaded(parse, routes)[k] == Entry(BlockOf(parse(r.prefix).value), r)
  {
    at := [];
    if routes != [] {
      var last := |routes| - 1;
      at := LoadedInOrder(parse, routes[..last]);
      NextPosition(at, last);
      assert forall i :: 0 <= i < last ==> routes[..last][i] == routes[i];
      if parse(routes[last].prefix).Some? {
        at := at + [last];
      }
    }
  }

  /** Each route whose AS path has the number is listed exactly once, in order. */
  lemma {:induction false} ThroughInOrder(routes: seq<Route>, asn: int) returns (at: seq<nat>)
    ensures Positions(at, |routes|)
    ensures forall i :: 0 <= i < |routes| ==> (i in at <==> asn in routes[i].asPath)
    ensures |Through(routes, asn)| == |at|
    ensures forall k :: 0 <= k < |at| ==> Through(routes, asn)[k] == routes[at[k]]
  {
    at := [];
    if routes != [] {
      var last := |routes| - 1;
      at := ThroughInOrder(routes[..last], asn);
      NextPosition(at, last);
      assert forall i :: 0 <= i < last ==> routes[..last][i] == routes[i];
      if asn in routes[last].asPath {
        at := at + [last];
      }
    }
  }

  /** Each route of the file with the family, the length and the network number of the prefix is listed
      exactly once, in order. */
  lemma {:induction false} SamePrefixInOrder(parse: ParseCIDR, routes: seq<Route>, net: IPNet) returns (at: seq<nat>)
    requires Loadable(parse, routes) && Fits(net)
    ensures Positions(at, |routes|)
    ensures forall i :: 0 <= i < |routes| ==>
              (i in at <==> && parse(routes[i].prefix).Some?
                            && var b, c := BlockOf(parse(routes[i].prefix).value), BlockOf(net);
                            b.v4 == c.v4 && b.ones == c.ones && NetworkOf(b.addr, b.ones) == NetworkOf(c.addr, c.ones))
    ensures |SamePrefix(parse, routes, net)| == |at|
    ensures forall k :: 0 <= k < |at| ==> SamePrefix(parse, routes, net)[k] == routes[at[k]]
  {
    hide BlockOf, NetworkOf, ValidBlock;
    at := [];
    if routes != [] {
      var last := |routes| - 1;
      at := SamePrefixInOrder(parse, routes[..last], net);
      NextPosition(at, last);
      assert forall i :: 0 <= i < last ==> routes[..last][i] == routes[i];
      if parse(routes[last].prefix).Some? && SameBlock(BlockOf(parse(routes[last].prefix).value), BlockOf(net)) {
        at := at + [last];
      }
    }
  }

  // ---------- The snapshot ----------

  class Snapshot {
    const parse: ParseCIDR
    const trie: Trie
    const loadedAt: int
    const fileMtime: int
    var byASN: map<int, seq<Route>>
    var routeCount: nat
    /** The part of the file read so far. */
    ghost var source: seq<Route>

    ghost predicate Valid()
      reads this, trie, trie.Nodes()
    {
      && trie.Valid() && Loadable(parse, source)
      && trie.log == Loaded(parse, source)
      && Indexed(byASN, ValidRoutes(parse, source))
      && routeCount == |ValidRoutes(parse, source)|
    }

    constructor (parse: ParseCIDR, loadedAt: int, fileMtime: int)
      ensures Valid() && source == [] && routeCount == 0
      ensures this.parse == parse && this.loadedAt == loadedAt && this.fileMtime == fileMtime
      ensures fresh(trie) && fresh(trie.Nodes())
    {
      this.parse, this.loadedAt, this.fileMtime := parse, loadedAt, fileMtime;
      trie := new Trie();
      byASN, routeCount, source := map[], 0, [];
    }

    /** One turn of the loading loop. */
    method Add(r: Route) returns (skipped: bool)
      requires Valid() && (parse(r.prefix).Some? ==> Fits(parse(r.prefix).value))
      modifies this, trie, trie.Nodes()
      ensures Valid() && source == old(source) + [r] && fresh(trie.Nodes() - old(trie.Nodes()))
      ensures skipped == parse(r.prefix).None?
      ensures routeCount == old(routeCount) + if skipped then 0 else 1
    {
      hide Indexed, Trie.Valid, Loaded, ValidRoutes, Loadable, Fits;
      ghost var before := source;
      LoadStep(parse, source, r);
      source := source + [r];
      if parse(r.prefix).None? {
        return true;
      }
      trie.Insert(parse(r.prefix).value, r);
      byASN := IndexPath(byASN, ValidRoutes(parse, before), r);
      routeCount := routeCount + 1;
      return false;
    }
  }

  /** The ASN index holds, for each number, the routes through it. */
  ghost predicate Indexed(byASN: map<int, seq<Route>>, routes: seq<Route>) {
    && (forall asn {:trigger Get(byASN, asn)} {:trigger Through(routes, asn)} ::
          Get(byASN, asn) == Through(routes, asn))
    && Total(byASN) == DistinctASNs(routes)
  }

  lemma LoadStep(parse: ParseCIDR, routes: seq<Route>, r: Route)
    requires Loadable(parse, routes) && (parse(r.prefix).Some? ==> Fits(parse(r.prefix).value))
    ensures Loadable(parse, routes + [r])
    ensures parse(r.prefix).None? ==>
              Loaded(parse, routes + [r]) == Loaded(parse, routes)
              && ValidRoutes(parse, routes + [r]) == ValidRoutes(parse, routes)
    ensures parse(r.prefix).Some? ==>
              Loaded(parse, routes + [r]) == Loaded(parse, routes) + [Entry(BlockOf(parse(r.prefix).value), r)]
              && ValidRoutes(parse, routes + [r]) == ValidRoutes(parse, routes) + [r]
  {
    assert (routes + [r])[..|routes + [r]| - 1] == routes;
  }

  /** The inner loop: r goes under each AS number of its path, once however often it is prepended. */
  method IndexPath(byASN: map<int, seq<Route>>, ghost routes: seq<Route>, r: Route)
    returns (byASN': map<int, seq<Route>>)
    requires Indexed(byASN, routes)
    ensures Indexed(byASN', routes + [r])
  {
    hide Get, Total, Through, DistinctASNs;
    byASN' := byASN;
    var seen: set<int> := {};
    for j := 0 to |r.asPath|
      invariant forall asn :: asn in seen <==> asn in r.asPath[..j]
      invariant forall asn {:trigger Get(byASN', asn)} ::
                  Get(byASN', asn) == if asn in seen then Get(byASN, asn) + [r] else Get(byASN, asn)
      invariant Total(byASN') == Total(byASN) + |seen|
    {
      var asn := r.asPath[j];
      assert r.asPath[..j + 1] == r.asPath[..j] + [asn];
      if asn in seen {
        continue;
      }
      seen := seen + {asn};
      TotalAppend(byASN', asn, [r]);
      GetUpdate(byASN', asn, Get(byASN', asn) + [r]);
      byASN' := byASN'[asn := Get(byASN', asn) + [r]];
    }
    assert r.asPath[..|r.asPath|] == r.asPath;
    assert forall asn :: asn in seen <==> asn in r.asPath;
    assert seen == set asn | asn in r.asPath;
    IndexedStep(routes, r);
  }

  lemma IndexedStep(routes: seq<Route>, r: Route)
    ensures DistinctASNs(routes + [r]) == DistinctASNs(routes) + |set asn | asn in r.asPath|
    ensures forall asn {:trigger Through(routes + [r], asn)} ::
              Through(routes + [r], asn) == if asn in r.asPath then Through(routes, asn) + [r] else Through(routes, asn)
  {
    assert (routes + [r])[..|routes + [r]| - 1] == routes;
  }

  // ---------- The store ----------

  /** What opening, stat-ing and decoding the file comes to. */
  datatype FileRead = Missing | StatFailed | BadJSON | Good(routes: seq<Route>, mtime: int)

  /** A lookup is refused for its text, runs past the bytes of an address, or answers. */
  datatype Answer = Invalid | Overrun | Routes(routes: seq<Route>)

  class Store {
    const parse: ParseCIDR
    const parseIP: ParseIP
    var current: Snapshot?

    ghost predicate Valid()
      reads this, current, if current == null then {} else {current.trie} + current.trie.Nodes()
    {
      current != null ==> current.parse == parse && current.Valid()
    }

    /** The version being served. */
    ghost function Serving(): Option<Version>
      reads this, current
    {
      if current == null then None else Some(Version(current.source, current.fileMtime))
    }

    /** The first load may fail; the store then serves nothing until a later tick succeeds. */
    constructor (parse: ParseCIDR, parseIP: ParseIP, file: FileRead, now: int)
      requires file.Good? ==> Loadable(parse, file.routes)
      ensures Valid() && Serving() == AfterLoad(None, file)
      ensures this.parse == parse && this.parseIP == parseIP
    {
      this.parse, this.parseIP, current := parse, parseIP, null;
      new;
      var err, skipped := Load(file, now);
    }

    /** Only the pointer to the current snapshot is ever written; the snapshot being served is not
        touched while its replacement is built. */
    method Load(file: FileRead, now: int) returns (err: bool, skipped: nat)
      requires Valid() && (file.Good? ==> Loadable(parse, file.routes))
      modifies this`current
      ensures Valid() && Serving() == AfterLoad(old(Serving()), file)
      ensures err <==> !file.Good?
      ensures err ==> current == old(current)
      ensures !err ==> current != null && fresh(current) && current.loadedAt == now
      ensures !err ==> current.routeCount + skipped == |file.routes|
      ensures !err ==> current.source == file.routes && current.fileMtime == file.mtime
    {
      hide Snapshot.Valid, Trie.Valid, Fits;
      if !file.Good? {
        return true, 0;
      }
      var snap := new Snapshot(parse, now, file.mtime);
      skipped := 0;
      for i := 0 to |file.routes|
        invariant snap.Valid() && snap.source == file.routes[..i] && skipped + snap.routeCount == i
        invariant fresh(snap) && fresh(snap.trie) && fresh(snap.trie.Nodes())
      {
        assert file.routes[..i + 1] == file.routes[..i] + [file.routes[i]];
        var skip := snap.Add(file.routes[i]);
        if skip {
          skipped := skipped + 1;
        }
      }
      assert file.routes[..|file.routes|] == file.routes;
      current := snap;
      err := false;
    }

    /** One tick of the poller: stat the file, load it only if it is newer than what is served. */
    method Poll(stat: Option<int>, file: FileRead, now: int)
      requires Valid() && (file.Good? ==> Loadable(parse, file.routes))
      modifies this`current
      ensures Valid() && Serving() == PollStep(old(Serving()), stat, file)
      ensures stat.Some? && (old(current) == null || stat.value > old(current).fileMtime) && file.Good? ==>
                current != null && fresh(current)
                && current.source == file.routes && current.fileMtime == file.mtime && current.loadedAt == now
      ensures stat.None? || !file.Good? || (old(current) != null && stat.value <= old(current).fileMtime) ==>
                current == old(current)
    {
      if stat.None? {
        return;
      }
      if current == null || stat.value > current.fileMtime {
        var err, skipped := Load(file, now);
      }
    }

    method LookupIP(ipStr: string) returns (answer: Answer)
      requires Valid()
      requires parseIP(ipStr).Some? ==> ValidIP(parseIP(ipStr).value)
      ensures answer.Invalid? <==> parseIP(ipStr).None?
      ensures !answer.Overrun?
      ensures answer.Routes? && current == null ==> answer.routes == []
      ensures answer.Routes? && current != null ==>
                answer.routes == Suppressed(LongestMatch(Loaded(parse, current.source), Normalize(parseIP(ipStr).value)))
      ensures answer.Routes? ==>
                forall i :: 0 <= i < |answer.routes| ==>
                  answer.routes[i].prefix != "0.0.0.0/0" && answer.routes[i].prefix != "::/0"
    {
      DefaultTexts();
      hide Loaded, LongestMatch, Normalize, Trie.Valid, Indexed, IsDefaultText, Loadable, ValidRoutes;
      if parseIP(ipStr).None? {
        return Invalid;
      }
      if current == null {
        return Routes([]);
      }
      var routes := current.trie.LookupIP(parseIP(ipStr).value);
      for i := 0 to |routes|
        invariant forall j :: 0 <= j < i ==> !IsDefaultText(routes[j])
      {
        if IsDefaultText(routes[i]) {
          return Routes([]);
        }
      }
      return Routes(routes);
    }

    /** An IPv4-mapped prefix is answered by nothing, but runs past its four bytes exactly if the file
        has a route for the one address they spell. */
    method LookupPrefix(cidr: string) returns (answer: Answer)
      requires Valid()
      requires parse(cidr).Some? ==> ValidNet(parse(cidr).value) && HostBitsClear(parse(cidr).value)
      ensures answer.Invalid? <==> parse(cidr).None?
      ensures answer.Overrun? <==>
                parse(cidr).Some? && current != null && IsMapped(parse(cidr).value.ip)
                && SamePrefix(parse, current.source, HostNet(parse(cidr).value)) != []
      ensures answer.Routes? ==>
                answer.routes == if current == null || IsMapped(parse(cidr).value.ip) then []
                                 else SamePrefix(parse, current.source, parse(cidr).value)
    {
      if parse(cidr).None? {
        return Invalid;
      }
      if current == null {
        return Routes([]);
      }
      ghost var net := parse(cidr).value;
      FitsUnlessMapped(net);
      UnderIsSamePrefix(parse, current.source, if IsMapped(net.ip) then HostNet(net) else net);
      var routes, overrun := current.trie.LookupExactPrefix(parse(cidr).value);
      return if overrun then Overrun else Routes(routes);
    }

    method LookupASN(asn: int) returns (routes: seq<Route>)
      requires Valid()
      ensures current == null ==> routes == []
      ensures current != null ==>
                var through := Through(ValidRoutes(parse, current.source), asn);
                routes == through[..if |through| > 1000 then 1000 else |through|]
    {
      if current == null {
        return [];
      }
      routes := Get(current.byASN, asn);
      if |routes| > MAX_ASN_ROUTES {
        return routes[..MAX_ASN_ROUTES];
      }
    }
  }

  /** What the trie holds under a prefix is the file filtered by that prefix. */
  lemma {:induction false} UnderIsSamePrefix(parse: ParseCIDR, routes: seq<Route>, net: IPNet)
    requires Loadable(parse, routes) && Fits(net)
    ensures Under(Loaded(parse, routes), BlockOf(net).v4, Key(BlockOf(net))) == SamePrefix(parse, routes, net)
  {
    if routes != [] {
      var init, r := routes[..|routes| - 1], routes[|routes| - 1];
      UnderIsSamePrefix(parse, init, net);
      if parse(r.prefix).Some? {
        var b := BlockOf(parse(r.prefix).value);
        SameBlockSameKey(b, BlockOf(net));
        var rest := Loaded(parse, init);
        assert (rest + [Entry(b, r)])[..|rest|] == rest;
      }
    }
  }

  lemma SameBlockSameKey(x: Block, y: Block)
    requires ValidBlock(x) && ValidBlock(y)
    ensures SameBlock(x, y) <==> x.v4 == y.v4 && Key(x) == Key(y)
  {
    PathOfDepth(x.addr, x.ones);
    PathOfDepth(y.addr, y.ones);
    if x.v4 == y.v4 && x.ones == y.ones {
      BitWalkIsArithmetic(x.addr, y.addr, x.ones);
    }
  }

  // ---------- Conservation ----------

  /** The routes held at each node of one tree. */
  ghost function NodeRoutes(at: map<Path, Node<Slot>>): map<Path, seq<Route>>
    reads at.Values
  {
    map p | p in at :: at[p].value.routes
  }

  ghost function CountFamily(log: seq<Entry<Route>>, v4: bool): nat {
    if log == [] then 0
    else CountFamily(log[..|log| - 1], v4) + if log[|log| - 1].block.v4 == v4 then 1 else 0
  }

  lemma {:induction false} TableTotal(log: seq<Entry<Route>>, v4: bool)
    requires ValidLog(log)
    ensures Total(Table(log, v4)) == CountFamily(log, v4)
  {
    if log != [] {
      var init, e := log[..|log| - 1], log[|log| - 1];
      TableTotal(init, v4);
      if e.block.v4 == v4 {
        TotalAppend(Table(init, v4), Key(e.block), [e.val]);
      }
    }
  }

  lemma {:induction false} FamiliesCoverLog(log: seq<Entry<Route>>)
    ensures CountFamily(log, true) + CountFamily(log, false) == |log|
  {
    if log != [] {
      FamiliesCoverLog(log[..|log| - 1]);
    }
  }

  lemma {:induction false} LoadedLength(parse: ParseCIDR, routes: seq<Route>)
    requires Loadable(parse, routes)
    ensures |Loaded(parse, routes)| == |ValidRoutes(parse, routes)|
  {
    if routes != [] {
      LoadedLength(parse, routes[..|routes| - 1]);
    }
  }

  lemma TreeTotal(at: map<Path, Node<Slot>>, m: map<Path, seq<Route>>)
    requires Stores(at, m)
    ensures Total(NodeRoutes(at)) == Total(m)
  {
    TotalIgnoresEmpty(m, NodeRoutes(at));
  }

  /** No route is lost or duplicated: the routes held at all nodes of both trees add up to the
      route count, and the ASN lists to the distinct AS numbers of the loaded routes. */
  lemma Conservation(s: Snapshot)
    requires s.Valid()
    ensures Total(NodeRoutes(s.trie.at4)) + Total(NodeRoutes(s.trie.at6)) == s.routeCount
    ensures Total(s.byASN) == DistinctASNs(ValidRoutes(s.parse, s.source))
  {
    var log := s.trie.log;
    TreeTotal(s.trie.at4, Table(log, true));
    TreeTotal(s.trie.at6, Table(log, false));
    TableTotal(log, true);
    TableTotal(log, false);
    FamiliesCoverLog(log);
    LoadedLength(s.parse, s.source);
  }

  // ---------- Default routes ----------

  /** The two default-route texts parse to the two zero-length prefixes. */
  ghost predicate ParsesDefaults(parse: ParseCIDR) {
    && parse("0.0.0.0/0") == Some(IPNet([0, 0, 0, 0], 0))
    && parse("::/0") == Some(IPNet([0, 0, 0, 0, 0, 0, 0, 0, 0, 0, 0, 0, 0, 0, 0, 0], 0))
  }

  /** Some default route of the family is written in its usual text. */
  ghost predicate DefaultIsWritten(log: seq<Entry<Route>>, v4: bool) {
    exists i :: 0 <= i < |log| && log[i].block.v4 == v4 && log[i].block.ones == 0 && IsDefaultText(log[i].val)
  }

  lemma {:induction false} DefaultTextHasLengthZero(parse: ParseCIDR, routes: seq<Route>, i: nat)
    requires Loadable(parse, routes) && ParsesDefaults(parse)
    requires i < |Loaded(parse, routes)| && IsDefaultText(Loaded(parse, routes)[i].val)
    ensures Loaded(parse, routes)[i].block.ones == 0
  {
    var init := routes[..|routes| - 1];
    if i < |Loaded(parse, init)| {
      DefaultTextHasLengthZero(parse, init, i);
    }
  }

  /** A default text occurs among the matches of length n exactly when some containing entry of
      that length carries it. */
  lemma {:induction false} DefaultTextAmongMatches(log: seq<Entry<Route>>, a: Address, n: int)
    requires ValidLog(log) && ValidAddress(a)
    ensures HasDefaultText(MatchesOfLength(log, a, n))
            <==> exists i :: 0 <= i < |log| && Contains(log[i].block, a) && log[i].block.ones == n
                             && IsDefaultText(log[i].val)
  {
    if log != [] {
      var init, e := log[..|log| - 1], log[|log| - 1];
      DefaultTextAmongMatches(init, a, n);
      var rest := MatchesOfLength(init, a, n);
      assert forall i :: 0 <= i < |init| ==> init[i] == log[i];
      assert (rest + [e.val])[|rest|] == e.val;
      assert forall j :: 0 <= j < |rest| ==> (rest + [e.val])[j] == rest[j];
      if Contains(e.block, a) && e.block.ones == n {
        assert HasDefaultText(rest + [e.val]) <==> HasDefaultText(rest) || IsDefaultText(e.val);
      }
    }
  }

  /** The store's answer is the longest match among the non-default routes exactly when, should the
      best match be a default route, some default route of that family is written in its usual text. */
  lemma SuppressionExact(parse: ParseCIDR, routes: seq<Route>, a: Address)
    requires Loadable(parse, routes) && ParsesDefaults(parse) && ValidAddress(a)
    ensures var log := Loaded(parse, routes);
            Suppressed(LongestMatch(log, a)) == LongestMatch(WithoutDefaults(log), a)
            <==> (BestLength(log, a) == 0 ==> DefaultIsWritten(log, a.v4))
  {
    var log := Loaded(parse, routes);
    var n := BestLength(log, a);
    LongestMatchWithoutDefaults(log, a);
    DefaultTextAmongMatches(log, a, n);
    if n > 0 {
      if HasDefaultText(LongestMatch(log, a)) {
        var i :| 0 <= i < |log| && Contains(log[i].block, a) && log[i].block.ones == n && IsDefaultText(log[i].val);
        DefaultTextHasLengthZero(parse, routes, i);
      }
    } else if n == 0 {
      BestLengthIsLongest(log, a);
      MatchesOfLengthNonEmpty(log, a, 0);
      forall i | 0 <= i < |log| && log[i].block.ones == 0
        ensures Contains(log[i].block, a) <==> log[i].block.v4 == a.v4
      {
        ContainsIsOnTheWalk(log[i].block, a);
      }
    } else {
      BestLengthIsLongest(log, a);
      NoNegativeLength(log, a);
    }
  }

  /** Every zero-length prefix of the file is written in its usual text. */
  ghost predicate CanonicalDefaults(log: seq<Entry<Route>>) {
    forall i :: 0 <= i < |log| && log[i].block.ones == 0 ==> IsDefaultText(log[i].val)
  }

  /** With canonical prefix texts, every address is answered by the longest match among the
      non-default routes. */
  lemma CanonicalAgreement(parse: ParseCIDR, routes: seq<Route>, a: Address)
    requires Loadable(parse, routes) && ParsesDefaults(parse) && ValidAddress(a)
    requires CanonicalDefaults(Loaded(parse, routes))
    ensures var log := Loaded(parse, routes);
            Suppressed(LongestMatch(log, a)) == LongestMatch(WithoutDefaults(log), a)
  {
    hide Loaded, IsDefaultText;
    SuppressionExact(parse, routes, a);
    BestLengthIsLongest(Loaded(parse, routes), a);
  }

  /** The same with the two texts spelled out: where every zero-length prefix is written as one of them, no
      default route is ever an answer, and every other answer is the longest match. */
  lemma WrittenDefaultsNeverServed(parse: ParseCIDR, routes: seq<Route>, a: Address)
    requires Loadable(parse, routes) && ParsesDefaults(parse) && ValidAddress(a)
    requires var log := Loaded(parse, routes);
             forall i :: 0 <= i < |log| && log[i].block.ones == 0 ==>
               log[i].val.prefix == "0.0.0.0/0" || log[i].val.prefix == "::/0"
    ensures var log := Loaded(parse, routes);
            && Suppressed(LongestMatch(log, a)) == LongestMatch(WithoutDefaults(log), a)
            && Suppressed(LongestMatch(log, a)) == if BestLength(log, a) > 0 then LongestMatch(log, a) else []
  {
    hide Loaded;
    CanonicalAgreement(parse, routes, a);
    LongestMatchWithoutDefaults(Loaded(parse, routes), a);
  }

  /** A lone default route written any other way, such as 1.2.3.4/0, is returned for every IPv4 address. */
  lemma OtherwiseWrittenDefaultIsReturned(parse: ParseCIDR, r: Route, a: Address)
    requires parse(r.prefix) == Some(IPNet([0, 0, 0, 0], 0)) && !IsDefaultText(r)
    requires ValidAddress(a) && a.v4
    ensures Loadable(parse, [r])
    ensures Suppressed(LongestMatch(Loaded(parse, [r]), a)) == [r]
    ensures LongestMatch(WithoutDefaults(Loaded(parse, [r])), a) == []
  {
    hide NetworkOf, BitAt, Value, IsDefaultText, Contains;
    assert [r][..0] == [];
    var e := Entry(Block(true, [0, 0, 0, 0], 0), r);
    assert Loaded(parse, [r]) == [e];
    assert [e][..0] == [];
    ContainsIsOnTheWalk(e.block, a);
    assert BestLength([e], a) == 0;
    assert MatchesOfLength([e], a, 0) == [r];
    LongestMatchWithoutDefaults([e], a);
  }

  // ---------- Polling over whole runs ----------

  datatype Version = Version(routes: seq<Route>, mtime: int)

  datatype Tick = Tick(stat: Option<int>, file: FileRead)

  ghost function AfterLoad(cur: Option<Version>, file: FileRead): Option<Version> {
    if file.Good? then Some(Version(file.routes, file.mtime)) else cur
  }

  ghost function PollStep(cur: Option<Version>, stat: Option<int>, file: FileRead): Option<Version> {
    if stat.Some? && (cur.None? || stat.value > cur.value.mtime) then AfterLoad(cur, file) else cur
  }

  /** The version served after the first n ticks. */
  ghost function ServedAfter(start: Option<Version>, ticks: seq<Tick>, n: nat): Option<Version>
    requires n <= |ticks|
  {
    if n == 0 then start else PollStep(ServedAfter(start, ticks, n - 1), ticks[n - 1].stat, ticks[n - 1].file)
  }

  /** A file replaced between the stat and the open can only be newer than the stat. */
  ghost predicate MtimesAdvance(ticks: seq<Tick>) {
    forall i :: 0 <= i < |ticks| && ticks[i].stat.Some? && ticks[i].file.Good? ==>
      ticks[i].stat.value <= ticks[i].file.mtime
  }

  /** Over any run of ticks, whether their loads succeed or fail: what is served at a later time is
      either what was served before or a whole file read by one of the ticks in between, strictly
      newer; and the store never goes back to serving nothing. */
  lemma {:induction false} ReloadSafety(start: Option<Version>, ticks: seq<Tick>, m: nat, n: nat)
    requires MtimesAdvance(ticks) && m <= n <= |ticks|
    ensures var before, after := ServedAfter(start, ticks, m), ServedAfter(start, ticks, n);
            after == before
            || (&& after.Some? && (before.Some? ==> before.value.mtime < after.value.mtime)
                && exists k :: m <= k < n && ticks[k].file == Good(after.value.routes, after.value.mtime))
  {
    if m < n {
      ReloadSafety(start, ticks, m, n - 1);
      var mid, after := ServedAfter(start, ticks, n - 1), ServedAfter(start, ticks, n);
      if after != mid {
        assert ticks[n - 1].file == Good(after.value.routes, after.value.mtime);
      } else if mid != ServedAfter(start, ticks, m) {
        var k :| m <= k < n - 1 && ticks[k].file == Good(mid.value.routes, mid.value.mtime);
        assert ticks[k].file == Good(after.value.routes, after.value.mtime);
      }
    }
  }

  /** A tick that finds a newer file and can read it serves that file from then on, until a newer one. */
  lemma NewerFileIsServed(start: Option<Version>, ticks: seq<Tick>, n: nat)
    requires n < |ticks| && ticks[n].stat.Some? && ticks[n].file.Good?
    requires var before := ServedAfter(start, ticks, n); before.None? || ticks[n].stat.value > before.value.mtime
    ensures ServedAfter(start, ticks, n + 1) == Some(Version(ticks[n].file.routes, ticks[n].file.mtime))
  {
  }

  /** After a tick that could read the file, the store is never again behind what that tick saw. */
  lemma NeverFallsBehind(start: Option<Version>, ticks: seq<Tick>, k: nat, n: nat)
    requires MtimesAdvance(ticks) && k < n <= |ticks| && ticks[k].stat.Some? && ticks[k].file.Good?
    ensures var served := ServedAfter(start, ticks, n); served.Some? && served.value.mtime >= ticks[k].stat.value
  {
    ReloadSafety(start, ticks, k + 1, n);
  }
}
