/** The BGP route trie: routes accumulate at the node their prefix leads to, and an address is
    answered by the deepest terminal node on its walk. */
module BgpTrie {
  import opened Bits
  import opened Cidr
  import opened Collections
  import opened RadixTrie

  datatype Route = Route(prefix: string, nextHop: string, asPath: seq<int>, origin: string,
                         med: int, localPref: int, communities: seq<string>)

  /** A parsed CIDR: an address of 4 or 16 bytes and a mask length counted in its own width. */
  datatype IPNet = IPNet(ip: Bytes, ones: nat)

  /** What a trie node carries besides its children. */
  datatype Slot = Slot(routes: seq<Route>, isTerminal: bool)

  const EMPTY: Slot := Slot([], false)

  predicate ValidIP(ip: Bytes) {
    |ip| == 4 || |ip| == 16
  }

  predicate ValidNet(n: IPNet) {
    ValidIP(n.ip) && n.ones <= 8 * |n.ip|
  }

  /** An IPv4 address in its 16-byte form. */
  predicate IsMapped(ip: Bytes) {
    |ip| == 16 && (forall i :: 0 <= i < 10 ==> ip[i] == 0) && ip[10] == 0xff && ip[11] == 0xff
  }

  /** The tree an address belongs to and the bytes walked in it: four whenever it has a 4-byte form. */
  function Normalize(ip: Bytes): (a: Address)
    requires ValidIP(ip)
    ensures ValidAddress(a)
  {
    if |ip| == 4 then Address(true, ip)
    else if IsMapped(ip) then Address(true, ip[12..])
    else Address(false, ip)
  }

  /** ::ffff:0:0/96, the prefix of the 16-byte forms of IPv4 addresses. */
  const MAPPED: Bytes := [0, 0, 0, 0, 0, 0, 0, 0, 0, 0, 0xff, 0xff]

  /** An address is walked in four bytes exactly when it is one of four bytes or the 16-byte form of one,
      and in all its own bytes otherwise. */
  lemma NormalizeIsFourByteForm(ip: Bytes)
    requires ValidIP(ip)
    ensures var a := Normalize(ip);
            && (a.v4 <==> |ip| == 4 || ip[..12] == MAPPED)
            && (if |ip| == 16 && a.v4 then ip == MAPPED + a.bytes else ip == a.bytes)
  {
  }

  function BlockOf(n: IPNet): Block
    requires ValidIP(n.ip)
  {
    var a := Normalize(n.ip);
    Block(a.v4, a.bytes, n.ones)
  }

  /** The walk of a prefix stays inside the bytes that its address normalises to. */
  predicate Fits(n: IPNet) {
    ValidNet(n) && ValidBlock(BlockOf(n))
  }

  /** The one-address block at the bytes that a prefix too long for them is walked in. */
  ghost function HostBlock(n: IPNet): (b: Block)
    requires ValidNet(n) && !Fits(n)
    ensures ValidBlock(b)
  {
    Block(true, Normalize(n.ip).bytes, 32)
  }

  /** A prefix as the CIDR parser returns it: host bits cleared. */
  predicate HostBitsClear(n: IPNet)
    requires ValidNet(n)
  {
    forall i :: n.ones <= i < 8 * |n.ip| ==> BitAt(n.ip, i) == 0
  }

  /** Among parsed prefixes, the walk leaves the byte slice exactly for the IPv4-mapped IPv6 ones:
      their address is walked in 4 bytes while their mask still counts from 96 up. */
  lemma FitsUnlessMapped(n: IPNet)
    requires ValidNet(n) && HostBitsClear(n)
    ensures Fits(n) <==> !IsMapped(n.ip)
  {
    if IsMapped(n.ip) {
      assert BitAt(n.ip, 95) == ByteBit(0xff, 7) == 1;
    }
  }

  /** ::ffff:1.2.3.0/120 is a parsed prefix whose walk does not fit. */
  lemma MappedPrefixDoesNotFit() returns (n: IPNet)
    ensures ValidNet(n) && HostBitsClear(n) && IsMapped(n.ip) && !Fits(n)
  {
    n := IPNet([0, 0, 0, 0, 0, 0, 0, 0, 0, 0, 0xff, 0xff, 1, 2, 3, 0], 120);
    forall i | 120 <= i < 128
      ensures BitAt(n.ip, i) == 0
    {
      ZeroByteBits(i % 8);
    }
    FitsUnlessMapped(n);
  }

  lemma ZeroByteBits(k: nat)
    requires k < 8
    ensures ByteBit(0, k) == 0
  {
  }

  /** The nodes of one family hold the routes of the table key by key, and exactly the nodes
      that are keys are terminal. */
  ghost predicate Stores(at: map<Path, Node<Slot>>, m: map<Path, seq<Route>>)
    reads at.Values`value
  {
    && (forall p {:trigger p in m} {:trigger at[p]} :: p in m ==> p in at)
    && (forall p {:trigger at[p]} :: p in at ==> at[p].value == Slot(Get(m, p), p in m))
  }

  lemma LeafStores(leaf: Node<Slot>, at: map<Path, Node<Slot>>)
    requires leaf.value == EMPTY && at == map[Root := leaf]
    ensures Stores(at, map[])
  {
  }

  class Trie {
    const root4: Node<Slot>
    const root6: Node<Slot>
    ghost var at4: map<Path, Node<Slot>>
    ghost var at6: map<Path, Node<Slot>>
    /** Everything inserted so far, in order. */
    ghost var log: seq<Entry<Route>>

    ghost predicate Valid()
      reads this, at4.Values, at6.Values
    {
      && ValidLog(log)
      && Shape(root4, at4) && Stores(at4, Table(log, true)) && Grown(at4, Table(log, true))
      && Shape(root6, at6) && Stores(at6, Table(log, false)) && Grown(at6, Table(log, false))
      && at4.Values !! at6.Values
    }

    ghost function Nodes(): set<object>
      reads this
    {
      at4.Values + at6.Values
    }

    constructor ()
      ensures Valid() && log == [] && fresh(Nodes())
    {
      hide Shape, Stores, Table, ValidLog;
      var leaf4, m4 := NewRoot(EMPTY);
      var leaf6, m6 := NewRoot(EMPTY);
      root4, at4, root6, at6, log := leaf4, m4, leaf6, m6, [];
      new;
      LeafStores(root4, at4);
      LeafStores(root6, at6);
      EmptyLog<Route>();
    }

    method Insert(prefix: IPNet, route: Route)
      requires Valid() && Fits(prefix)
      modifies this, Nodes()
      ensures Valid() && fresh(Nodes() - old(Nodes()))
      ensures log == old(log) + [Entry(BlockOf(prefix), route)]
    {
      hide PathOf, Shape, Stores, Grown, Table, Add, ValidLog, Normalize, BitAt;
      var a := Normalize(prefix.ip);
      ghost var e := Entry(BlockOf(prefix), route);
      TableAppend(log, e);
      if a.v4 {
        at4 := InsertFrom(root4, a.bytes, prefix.ones, route, at4, Table(log, true));
      } else {
        at6 := InsertFrom(root6, a.bytes, prefix.ones, route, at6, Table(log, false));
      }
      log := log + [e];
    }

    static method InsertFrom(root: Node<Slot>, b: Bytes, ones: nat, route: Route,
                             ghost at: map<Path, Node<Slot>>, ghost m: map<Path, seq<Route>>)
      returns (ghost at': map<Path, Node<Slot>>)
      requires Shape(root, at) && Stores(at, m) && Grown(at, m) && ones <= 8 * |b|
      modifies at.Values
      ensures Shape(root, at') && fresh(at'.Values - at.Values)
      ensures var m' := Add(m, PathOf(b, ones), route); Stores(at', m') && Grown(at', m')
    {
      hide Shape, PathOf, OnTheWay, Grown;
      var node;
      node, at' := Descend(root, b, ones, EMPTY, at);
      StillGrown(at, m, at', PathOf(b, ones), route);
      node.value := Slot(node.value.routes + [route], true);
    }

    method LookupIP(ip: Bytes) returns (best: seq<Route>)
      requires Valid() && ValidIP(ip)
      ensures best == LongestMatch(log, Normalize(ip))
    {
      var a := Normalize(ip);
      DeepestAnswers(log, a);
      if a.v4 {
        best := LookupFrom(root4, a.bytes, 32, at4, Table(log, true));
      } else {
        best := LookupFrom(root6, a.bytes, 128, at6, Table(log, false));
      }
    }

    static method LookupFrom(root: Node<Slot>, b: Bytes, maxBits: nat,
                             ghost at: map<Path, Node<Slot>>, ghost m: map<Path, seq<Route>>)
      returns (best: seq<Route>)
      requires Shape(root, at) && Stores(at, m) && maxBits <= 8 * |b|
      ensures best == DeepestValues(m, b, maxBits)
    {
      hide BitAt, Shape;
      RootInShape(root, at);
      var node: Node?<Slot> := root;
      best := [];
      var i := 0;
      while i < maxBits && node != null
        invariant 0 <= i <= maxBits
        invariant if PathOf(b, i) in at then node == at[PathOf(b, i)] && node.place == PathOf(b, i) else node == null
        invariant best == if i == 0 then [] else DeepestValues(m, b, i - 1)
      {
        if node.value.isTerminal {
          best := node.value.routes;
        }
        node := Next(root, at, node, BitAt(b, i));
        i := i + 1;
      }
      if node != null && node.value.isTerminal {
        best := node.value.routes;
      }
      if node == null {
        NothingBelow(root, at, m, b, i, maxBits);
      }
    }

    /** A prefix that does not fit finds nothing, unless its walk is kept alive to the end of the bytes
        by a route for the very address they spell: then it indexes past them. */
    method LookupExactPrefix(prefix: IPNet) returns (routes: seq<Route>, overrun: bool)
      requires Valid() && ValidNet(prefix)
      ensures overrun <==> !Fits(prefix) && Under(log, true, Key(HostBlock(prefix))) != []
      ensures Fits(prefix) ==> var b := BlockOf(prefix); routes == Under(log, b.v4, Key(b))
      ensures !Fits(prefix) ==> routes == []
    {
      var a := Normalize(prefix.ip);
      var node;
      if a.v4 {
        node, overrun := Find(root4, a.bytes, prefix.ones, at4);
      } else {
        node, overrun := Find(root6, a.bytes, prefix.ones, at6);
      }
      if Fits(prefix) {
        TableIsUnder(log, a.v4, PathOf(a.bytes, prefix.ones));
      } else {
        FullDepthIsKey(log, at4, a.bytes);
      }
      routes := if node == null then [] else node.value.routes;
    }
  }

  lemma StillGrown(at: map<Path, Node<Slot>>, m: map<Path, seq<Route>>, at': map<Path, Node<Slot>>,
                   p: Path, route: Route)
    requires Grown(at, m)
    requires forall q {:trigger q in at'} :: q in at' && q !in at ==> OnTheWay(q, p)
    ensures Grown(at', Add(m, p, route))
  {
    hide OnTheWay;
    var m' := Add(m, p, route);
    forall q | q in at' && q != Root
      ensures exists k :: k in m' && OnTheWay(q, k)
    {
      if q in at {
        var k :| k in m && OnTheWay(q, k);
        assert k in m';
      } else {
        assert p in m';
      }
    }
  }

  lemma {:induction false} KeysWithinWidth(log: seq<Entry<Route>>, v4: bool, p: Path)
    requires ValidLog(log) && p in Table(log, v4)
    ensures Depth(p) <= Width(v4)
  {
    var init, e := log[..|log| - 1], log[|log| - 1];
    PathOfDepth(e.block.addr, e.block.ones);
    if p in Table(init, v4) {
      KeysWithinWidth(init, v4, p);
    }
  }

  /** A node as deep as an address is wide is there only for a route of that very address. */
  lemma FullDepthIsKey(log: seq<Entry<Route>>, at: map<Path, Node<Slot>>, b: Bytes)
    requires ValidLog(log) && |b| == 4 && Stores(at, Table(log, true)) && Grown(at, Table(log, true))
    ensures PathOf(b, 32) in at <==> Under(log, true, PathOf(b, 32)) != []
  {
    var p, m := PathOf(b, 32), Table(log, true);
    TableIsUnder(log, true, p);
    PathOfDepth(b, 32);
    if p in at {
      var k :| k in m && OnTheWay(p, k);
      OnTheWayIsShorter(p, k);
      KeysWithinWidth(log, true, k);
    }
  }
}
