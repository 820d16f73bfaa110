/** The heap nodes shared by both tries: two child pointers and whatever the node carries. */
module RadixTrie {
  import opened Bits
  import opened Cidr

  /** The ghost field says under which path the node hangs. */
  class Node<V> {
    ghost const place: Path
    var children: seq<Node?<V>>
    var value: V

    constructor (ghost place: Path, zero: V)
      ensures this.place == place
      ensures children == [null, null] && value == zero
    {
      this.place := place;
      children, value := [null, null], zero;
    }
  }

  /** The nodes reachable from a root, named by the path that leads to each: each node knows its
      own name, parents are named whenever their children are, and each child pointer is null or
      leads to the node one step further. */
  ghost predicate Shape<V>(root: Node<V>, at: map<Path, Node<V>>)
    reads at.Values`children
  {
    && Root in at && at[Root] == root
    && (forall p {:trigger at[p]} :: p in at ==> at[p].place == p && |at[p].children| == 2)
    && (forall p, b: nat {:trigger Child(p, b)} :: Child(p, b) in at ==> p in at && b < 2)
    && (forall p, b: nat {:trigger at[p].children[b]} :: p in at && b < 2 ==>
          at[p].children[b] == if Child(p, b) in at then at[Child(p, b)] else null)
  }

  ghost predicate Extends<V>(at: map<Path, Node<V>>, at': map<Path, Node<V>>) {
    forall p {:trigger at'[p]} {:trigger p in at} :: p in at ==> p in at' && at'[p] == at[p]
  }

  /** One path leads through another. */
  ghost predicate OnTheWay(p: Path, q: Path) {
    p == q || (q.Child? && OnTheWay(p, q.parent))
  }

  /** Every node but the root lies on the way to some key. */
  ghost predicate Grown<V, R>(at: map<Path, Node<V>>, m: map<Path, R>) {
    forall p {:trigger p in at} :: p in at ==> p == Root || exists k :: k in m && OnTheWay(p, k)
  }

  lemma {:induction false} OnTheWayIsShorter(p: Path, q: Path)
    requires OnTheWay(p, q)
    ensures Depth(p) <= Depth(q) && (Depth(p) == Depth(q) ==> p == q)
  {
    if p != q {
      OnTheWayIsShorter(p, q.parent);
    }
  }

  /** Once the walk has left the trie it stays out. */
  lemma {:induction false} OffTheTrie<V>(root: Node<V>, at: map<Path, Node<V>>, b: Bytes, i: nat, j: nat)
    requires Shape(root, at) && i <= j <= 8 * |b| && PathOf(b, i) !in at
    ensures PathOf(b, j) !in at
  {
    if i < j {
      OffTheTrie(root, at, b, i, j - 1);
    }
  }

  /** Where the walk leaves the trie, no key lies deeper. */
  lemma {:induction false} NothingBelow<V, R>(root: Node<V>, at: map<Path, Node<V>>, m: map<Path, seq<R>>,
                                              b: Bytes, i: nat, n: nat)
    requires Shape(root, at) && m.Keys <= at.Keys
    requires 0 < i <= n <= 8 * |b| && PathOf(b, i) !in at
    ensures Deepest(m, b, n) == Deepest(m, b, i - 1)
  {
    hide BitAt;
    OffTheTrie(root, at, b, i, n);
    if i < n {
      NothingBelow(root, at, m, b, i, n - 1);
    }
  }

  lemma RootInShape<V>(root: Node<V>, at: map<Path, Node<V>>)
    requires Shape(root, at)
    ensures root.place == Root && Root in at && at[Root] == root
  {
  }

  lemma PlacesInShape<V>(root: Node<V>, at: map<Path, Node<V>>)
    requires Shape(root, at)
    ensures forall p {:trigger at[p]} :: p in at ==> at[p].place == p
  {
  }

  lemma LeafShape<V>(leaf: Node<V>, at: map<Path, Node<V>>)
    requires leaf.place == Root && leaf.children == [null, null] && at == map[Root := leaf]
    ensures Shape(leaf, at) && at.Values == {leaf}
  {
  }

  /** An empty tree. */
  method NewRoot<V>(zero: V) returns (root: Node<V>, ghost at: map<Path, Node<V>>)
    ensures fresh(root) && root.value == zero
    ensures Shape(root, at) && at == map[Root := root] && at.Values == {root}
  {
    root := new Node(Root, zero);
    at := map[Root := root];
    LeafShape(root, at);
  }

  /** One step of a lookup walk. */
  method Next<V>(ghost root: Node<V>, ghost at: map<Path, Node<V>>, node: Node<V>, bit: nat)
    returns (next: Node?<V>)
    requires Shape(root, at) && node.place in at && at[node.place] == node && bit < 2
    ensures var q := Child(node.place, bit);
            if q in at then next == at[q] && at[q].place == q else next == null
  {
    next := node.children[bit];
  }

  /** The exact walk: the node after `ones` bits, or null where a child is missing. With more bits asked
      for than there are, it overruns the bytes exactly if it survives all of them. */
  method Find<V>(root: Node<V>, b: Bytes, ones: nat, ghost at: map<Path, Node<V>>)
    returns (node: Node?<V>, overrun: bool)
    requires Shape(root, at)
    ensures overrun <==> 8 * |b| < ones && PathOf(b, 8 * |b|) in at
    ensures node == if ones <= 8 * |b| && PathOf(b, ones) in at then at[PathOf(b, ones)] else null
  {
    hide BitAt, Shape;
    RootInShape(root, at);
    var here: Node<V> := root;
    var i := 0;
    while i < ones
      invariant i <= ones && i <= 8 * |b| && here.place == PathOf(b, i)
      invariant here.place in at && at[here.place] == here
    {
      if i / 8 >= |b| {
        return null, true;
      }
      var next := Next(root, at, here, BitAt(b, i));
      i := i + 1;
      if next == null {
        OffTheTrie(root, at, b, i, if ones <= 8 * |b| then ones else 8 * |b|);
        return null, false;
      }
      here := next;
    }
    return here, false;
  }

  /** One step of the insertion walk: the child under `bit`, created if it was missing. */
  method NextOrNew<V>(root: Node<V>, ghost at: map<Path, Node<V>>, node: Node<V>, bit: nat, zero: V)
    returns (next: Node<V>, ghost at': map<Path, Node<V>>)
    requires Shape(root, at) && node.place in at && at[node.place] == node && bit < 2
    modifies node`children
    ensures Shape(root, at') && Extends(at, at')
    ensures next.place == Child(node.place, bit) && next.place in at' && at'[next.place] == next
    ensures at'.Keys <= at.Keys + {next.place}
    ensures forall p {:trigger at'[p]} :: p in at' && p !in at ==> at'[p] == next && fresh(next) && next.value == zero
  {
    at' := at;
    ghost var q := Child(node.place, bit);
    if node.children[bit] == null {
      var child := new Node(q, zero);
      node.children := node.children[bit := child];
      at' := at[q := child];
      assert forall b: nat :: Child(q, b) !in at;
    }
    next := node.children[bit];
  }

  /** The insertion loop of both tries: follow the first `ones` bits, creating the nodes that
      are missing. Everything already there keeps its place and its value. */
  method Descend<V>(root: Node<V>, b: Bytes, ones: nat, zero: V, ghost at: map<Path, Node<V>>)
    returns (node: Node<V>, ghost at': map<Path, Node<V>>)
    requires Shape(root, at) && ones <= 8 * |b|
    modifies at.Values`children
    ensures Shape(root, at') && Extends(at, at')
    ensures node.place == PathOf(b, ones) && node.place in at' && at'[node.place] == node
    ensures forall p {:trigger at'[p]} :: p in at' ==> at'[p].place == p
    ensures forall p {:trigger at'[p]} :: p in at' && p !in at ==> fresh(at'[p]) && at'[p].value == zero
    ensures forall p {:trigger p in at'} :: p in at' && p !in at ==> OnTheWay(p, PathOf(b, ones))
  {
    hide BitAt, Shape;
    RootInShape(root, at);
    node, at' := root, at;
    var i := 0;
    while i < ones
      invariant i <= ones && node.place == PathOf(b, i)
      invariant Shape(root, at') && Extends(at, at')
      invariant node.place in at' && at'[node.place] == node
      invariant forall p {:trigger at'[p]} :: p in at' && p !in at ==> fresh(at'[p]) && at'[p].value == zero
      invariant forall p {:trigger p in at'} :: p in at' && p !in at ==> OnTheWay(p, PathOf(b, i))
    {
      node, at' := NextOrNew(root, at', node, BitAt(b, i), zero);
      i := i + 1;
    }
    PlacesInShape(root, at');
  }
}
