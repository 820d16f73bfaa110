/** CIDR blocks and the rule a routing table answers by: longest match, section 5.1 of RFC 4632.
    Everything here is a linear scan over the list of entries loaded so far; no trie is mentioned. */
module Cidr {
  import opened Bits
  import opened Collections

  /** The family an address belongs to after normalisation, and its bytes. */
  datatype Address = Address(v4: bool, bytes: Bytes)

  /** The addresses that share their first `ones` bits with `addr`. */
  datatype Block = Block(v4: bool, addr: Bytes, ones: nat)

  datatype Entry<V> = Entry(block: Block, val: V)

  function Width(v4: bool): (bits: nat)
    ensures bits % 8 == 0
  {
    if v4 then 32 else 128
  }

  predicate ValidAddress(a: Address) {
    8 * |a.bytes| == Width(a.v4)
  }

  predicate ValidBlock(b: Block) {
    8 * |b.addr| == Width(b.v4) && b.ones <= Width(b.v4)
  }

  ghost predicate ValidLog<V>(log: seq<Entry<V>>) {
    forall i :: 0 <= i < |log| ==> ValidBlock(log[i].block)
  }

  ghost function Key(b: Block): Path
    requires ValidBlock(b)
  {
    PathOf(b.addr, b.ones)
  }

  /** Numeric membership: same family, and same value once the host bits are divided off. */
  ghost predicate Contains(b: Block, a: Address)
    requires ValidBlock(b) && ValidAddress(a)
  {
    b.v4 == a.v4 && NetworkOf(b.addr, b.ones) == NetworkOf(a.bytes, b.ones)
  }

  /** The values entered under one block, in the order they were entered. */
  ghost function Under<V>(log: seq<Entry<V>>, v4: bool, p: Path): seq<V>
    requires ValidLog(log)
  {
    if log == [] then []
    else
      var rest, e := Under(log[..|log| - 1], v4, p), log[|log| - 1];
      if e.block.v4 == v4 && Key(e.block) == p then rest + [e.val] else rest
  }

  /** The greatest prefix length among the blocks that contain the address, or -1. */
  ghost function BestLength<V>(log: seq<Entry<V>>, a: Address): int
    requires ValidLog(log) && ValidAddress(a)
  {
    if log == [] then -1
    else
      var rest, e := BestLength(log[..|log| - 1], a), log[|log| - 1];
      if Contains(e.block, a) && e.block.ones > rest then e.block.ones else rest
  }

  /** The values of the blocks of length n that contain the address, in order. */
  ghost function MatchesOfLength<V>(log: seq<Entry<V>>, a: Address, n: int): seq<V>
    requires ValidLog(log) && ValidAddress(a)
  {
    if log == [] then []
    else
      var rest, e := MatchesOfLength(log[..|log| - 1], a, n), log[|log| - 1];
      if Contains(e.block, a) && e.block.ones == n then rest + [e.val] else rest
  }

  ghost function LongestMatch<V>(log: seq<Entry<V>>, a: Address): seq<V>
    requires ValidLog(log) && ValidAddress(a)
  {
    MatchesOfLength(log, a, BestLength(log, a))
  }

  /** BestLength is what its name says: no containing block is longer, and one has that length. */
  lemma {:induction false} BestLengthIsLongest<V>(log: seq<Entry<V>>, a: Address)
    requires ValidLog(log) && ValidAddress(a)
    ensures forall i :: 0 <= i < |log| && Contains(log[i].block, a) ==> log[i].block.ones <= BestLength(log, a)
    ensures BestLength(log, a) == -1
            || exists i :: 0 <= i < |log| && Contains(log[i].block, a) && log[i].block.ones == BestLength(log, a)
    ensures -1 <= BestLength(log, a) <= Width(a.v4)
  {
    if log != [] {
      var init := log[..|log| - 1];
      BestLengthIsLongest(init, a);
      assert forall i :: 0 <= i < |init| ==> init[i] == log[i];
      if BestLength(log, a) == BestLength(init, a) != -1 {
        var i :| 0 <= i < |init| && Contains(init[i].block, a) && init[i].block.ones == BestLength(init, a);
        assert Contains(log[i].block, a);
      }
    }
  }

  /** The matches of one length are the values of exactly the containing entries of that length, in the
      order in which they were entered. */
  lemma {:induction false} MatchesInOrder<V>(log: seq<Entry<V>>, a: Address, n: int) returns (at: seq<nat>)
    requires ValidLog(log) && ValidAddress(a)
    ensures Positions(at, |log|)
    ensures forall i :: 0 <= i < |log| ==> (i in at <==> Contains(log[i].block, a) && log[i].block.ones == n)
    ensures |MatchesOfLength(log, a, n)| == |at|
    ensures forall k :: 0 <= k < |at| ==> MatchesOfLength(log, a, n)[k] == log[at[k]].val
  {
    hide Contains;
    at := [];
    if log != [] {
      var last := |log| - 1;
      at := MatchesInOrder(log[..last], a, n);
      NextPosition(at, last);
      assert forall i :: 0 <= i < last ==> log[..last][i] == log[i];
      if Contains(log[last].block, a) && log[last].block.ones == n {
        at := at + [last];
      }
    }
  }

  // ---------- From arithmetic to bit walks ----------

  /** A block contains an address exactly when its key lies on the address's own walk. */
  lemma ContainsIsOnTheWalk(b: Block, a: Address)
    requires ValidBlock(b) && ValidAddress(a)
    ensures Contains(b, a) <==> b.v4 == a.v4 && Key(b) == PathOf(a.bytes, b.ones)
  {
    if b.v4 == a.v4 {
      BitWalkIsArithmetic(b.addr, a.bytes, b.ones);
    }
  }

  /** The matches of one length are the values under one key. */
  lemma {:induction false} MatchesAreUnder<V>(log: seq<Entry<V>>, a: Address, n: nat)
    requires ValidLog(log) && ValidAddress(a) && n <= Width(a.v4)
    ensures MatchesOfLength(log, a, n) == Under(log, a.v4, PathOf(a.bytes, n))
  {
    if log != [] {
      var e := log[|log| - 1];
      MatchesAreUnder(log[..|log| - 1], a, n);
      ContainsIsOnTheWalk(e.block, a);
      PathOfDepth(e.block.addr, e.block.ones);
      PathOfDepth(a.bytes, n);
    }
  }

  lemma {:induction false} MatchesOfLengthNonEmpty<V>(log: seq<Entry<V>>, a: Address, n: int)
    requires ValidLog(log) && ValidAddress(a)
    ensures MatchesOfLength(log, a, n) != []
            <==> exists i :: 0 <= i < |log| && Contains(log[i].block, a) && log[i].block.ones == n
  {
    if log != [] {
      var init := log[..|log| - 1];
      MatchesOfLengthNonEmpty(init, a, n);
      assert forall i :: 0 <= i < |init| ==> init[i] == log[i];
      if i :| 0 <= i < |init| && Contains(init[i].block, a) && init[i].block.ones == n {
        assert Contains(log[i].block, a);
      }
    }
  }

  /** Beyond the best length the walk meets nothing; at the best length it meets something. */
  lemma UnderAlongTheWalk<V>(log: seq<Entry<V>>, a: Address, n: nat)
    requires ValidLog(log) && ValidAddress(a) && n <= Width(a.v4)
    ensures n > BestLength(log, a) ==> Under(log, a.v4, PathOf(a.bytes, n)) == []
    ensures n == BestLength(log, a) ==> Under(log, a.v4, PathOf(a.bytes, n)) != []
  {
    BestLengthIsLongest(log, a);
    MatchesAreUnder(log, a, n);
    MatchesOfLengthNonEmpty(log, a, n);
  }

  lemma {:induction false} NoNegativeLength<V>(log: seq<Entry<V>>, a: Address)
    requires ValidLog(log) && ValidAddress(a)
    ensures MatchesOfLength(log, a, -1) == []
  {
    if log != [] {
      NoNegativeLength(log[..|log| - 1], a);
    }
  }

  // ---------- The same log as a table of keys ----------

  /** What one family's tree should hold: each key with its values in order of entry. */
  ghost function Table<V>(log: seq<Entry<V>>, v4: bool): map<Path, seq<V>>
    requires ValidLog(log)
  {
    if log == [] then map[]
    else
      var rest, e := Table(log[..|log| - 1], v4), log[|log| - 1];
      if e.block.v4 == v4 then Add(rest, Key(e.block), e.val) else rest
  }

  lemma EmptyLog<V>()
    ensures ValidLog<V>([]) && forall v4 :: Table<V>([], v4) == map[]
  {
  }

  ghost function Add<V>(m: map<Path, seq<V>>, p: Path, val: V): map<Path, seq<V>> {
    m[p := Get(m, p) + [val]]
  }

  lemma {:induction false} TableIsUnder<V>(log: seq<Entry<V>>, v4: bool, p: Path)
    requires ValidLog(log)
    ensures Under(log, v4, p) == Get(Table(log, v4), p)
    ensures p in Table(log, v4) <==> Under(log, v4, p) != []
  {
    if log != [] {
      TableIsUnder(log[..|log| - 1], v4, p);
    }
  }

  lemma TableAppend<V>(log: seq<Entry<V>>, e: Entry<V>)
    requires ValidLog(log) && ValidBlock(e.block)
    ensures ValidLog(log + [e])
    ensures Table(log + [e], e.block.v4) == Add(Table(log, e.block.v4), Key(e.block), e.val)
    ensures Table(log + [e], !e.block.v4) == Table(log, !e.block.v4)
  {
    assert (log + [e])[..|log + [e]| - 1] == log;
  }

  /** How deep, within n steps, a walk still meets a key of the table; -1 if it meets none. */
  ghost function Deepest<V>(m: map<Path, seq<V>>, b: Bytes, n: nat): (d: int)
    requires n <= 8 * |b|
    ensures -1 <= d <= n
  {
    if PathOf(b, n) in m then n
    else if n == 0 then -1
    else Deepest(m, b, n - 1)
  }

  /** The values under the deepest key met within n steps. */
  ghost function DeepestValues<V>(m: map<Path, seq<V>>, b: Bytes, n: nat): seq<V>
    requires n <= 8 * |b|
  {
    var d := Deepest(m, b, n);
    if d < 0 then [] else Get(m, PathOf(b, d))
  }

  lemma {:induction false} DeepestIsBest<V>(log: seq<Entry<V>>, a: Address, n: nat)
    requires ValidLog(log) && ValidAddress(a)
    requires BestLength(log, a) <= n <= Width(a.v4)
    ensures Deepest(Table(log, a.v4), a.bytes, n) == BestLength(log, a)
  {
    BestLengthIsLongest(log, a);
    UnderAlongTheWalk(log, a, n);
    TableIsUnder(log, a.v4, PathOf(a.bytes, n));
    if n > 0 && n > BestLength(log, a) {
      DeepestIsBest(log, a, n - 1);
    }
  }

  /** The answer of a walk that remembers the last key it met is the longest match. */
  lemma DeepestAnswers<V>(log: seq<Entry<V>>, a: Address)
    requires ValidLog(log) && ValidAddress(a)
    ensures LongestMatch(log, a) == DeepestValues(Table(log, a.v4), a.bytes, Width(a.v4))
  {
    BestLengthIsLongest(log, a);
    DeepestIsBest(log, a, Width(a.v4));
    var d := BestLength(log, a);
    if d >= 0 {
      MatchesAreUnder(log, a, d);
      TableIsUnder(log, a.v4, PathOf(a.bytes, d));
    } else {
      NoNegativeLength(log, a);
    }
  }

  // ---------- Order of insertion ----------

  /** Two logs that agree key by key. */
  ghost predicate SameTable<V>(x: seq<Entry<V>>, y: seq<Entry<V>>)
    requires ValidLog(x) && ValidLog(y)
  {
    forall v4, p :: Under(x, v4, p) == Under(y, v4, p)
  }

  /** Lookups cannot tell such logs apart. */
  lemma SameTableSameMatch<V>(x: seq<Entry<V>>, y: seq<Entry<V>>, a: Address)
    requires ValidLog(x) && ValidLog(y) && SameTable(x, y) && ValidAddress(a)
    ensures LongestMatch(x, a) == LongestMatch(y, a)
  {
    DeepestAnswers(x, a);
    DeepestAnswers(y, a);
    forall p
      ensures p in Table(x, a.v4) <==> p in Table(y, a.v4)
      ensures Get(Table(x, a.v4), p) == Get(Table(y, a.v4), p)
    {
      assert Under(x, a.v4, p) == Under(y, a.v4, p);
      TableIsUnder(x, a.v4, p);
      TableIsUnder(y, a.v4, p);
    }
    assert forall p :: p in Table(x, a.v4) ==> Get(Table(x, a.v4), p) == Get(Table(y, a.v4), p);
    assert Table(x, a.v4) == Table(y, a.v4);
  }

  lemma {:induction false} UnderConcat<V>(x: seq<Entry<V>>, y: seq<Entry<V>>, v4: bool, p: Path)
    requires ValidLog(x) && ValidLog(y)
    ensures ValidLog(x + y)
    ensures Under(x + y, v4, p) == Under(x, v4, p) + Under(y, v4, p)
  {
    if y == [] {
      assert x + y == x;
    } else {
      var init, e := y[..|y| - 1], y[|y| - 1];
      UnderConcat(x, init, v4, p);
      assert (x + y)[..|x + y| - 1] == x + init;
      assert Under(x + y, v4, p) == Under(x + init, v4, p) +
                                    (if e.block.v4 == v4 && Key(e.block) == p then [e.val] else []);
    }
  }

  /** Entries for distinct blocks may be reordered without changing any lookup. */
  lemma ReorderDistinct<V>(before: seq<Entry<V>>, e: Entry<V>, f: Entry<V>, after: seq<Entry<V>>)
    requires ValidLog(before) && ValidLog(after) && ValidBlock(e.block) && ValidBlock(f.block)
    requires e.block.v4 != f.block.v4 || Key(e.block) != Key(f.block)
    ensures ValidLog(before + [e, f] + after) && ValidLog(before + [f, e] + after)
    ensures SameTable(before + [e, f] + after, before + [f, e] + after)
    ensures forall a :: ValidAddress(a) ==>
              LongestMatch(before + [e, f] + after, a) == LongestMatch(before + [f, e] + after, a)
  {
    var x, y := before + [e, f] + after, before + [f, e] + after;
    forall v4, p
      ensures Under(x, v4, p) == Under(y, v4, p)
    {
      UnderConcat(before, [e, f], v4, p);
      UnderConcat(before + [e, f], after, v4, p);
      UnderConcat(before, [f, e], v4, p);
      UnderConcat(before + [f, e], after, v4, p);
      UnderPair(e, f, v4, p);
      UnderPair(f, e, v4, p);
    }
    forall a | ValidAddress(a)
      ensures LongestMatch(x, a) == LongestMatch(y, a)
    {
      SameTableSameMatch(x, y, a);
    }
  }

  lemma UnderPair<V>(e: Entry<V>, f: Entry<V>, v4: bool, p: Path)
    requires ValidBlock(e.block) && ValidBlock(f.block)
    ensures ValidLog([e, f])
    ensures Under([e, f], v4, p) == (if e.block.v4 == v4 && Key(e.block) == p then [e.val] else [])
                                    + (if f.block.v4 == v4 && Key(f.block) == p then [f.val] else [])
  {
    assert [e, f][..1] == [e];
    assert [e][..0] == [];
    assert Under([e], v4, p) == if e.block.v4 == v4 && Key(e.block) == p then [e.val] else [];
  }

  // ---------- Default routes ----------

  /** The log without its zero-length blocks. */
  ghost function WithoutDefaults<V>(log: seq<Entry<V>>): (r: seq<Entry<V>>)
    requires ValidLog(log)
    ensures ValidLog(r)
  {
    if log == [] then []
    else
      var rest, e := WithoutDefaults(log[..|log| - 1]), log[|log| - 1];
      if e.block.ones == 0 then rest else rest + [e]
  }

  lemma {:induction false} BestWithoutDefaults<V>(log: seq<Entry<V>>, a: Address)
    requires ValidLog(log) && ValidAddress(a)
    ensures BestLength(WithoutDefaults(log), a)
            == if BestLength(log, a) > 0 then BestLength(log, a) else -1
  {
    if log != [] {
      var init, e := log[..|log| - 1], log[|log| - 1];
      BestWithoutDefaults(init, a);
      BestLengthIsLongest(init, a);
      var rest := WithoutDefaults(init);
      assert (rest + [e])[..|rest + [e]| - 1] == rest;
    }
  }

  lemma {:induction false} MatchesWithoutDefaults<V>(log: seq<Entry<V>>, a: Address, n: int)
    requires ValidLog(log) && ValidAddress(a) && n > 0
    ensures MatchesOfLength(WithoutDefaults(log), a, n) == MatchesOfLength(log, a, n)
  {
    if log != [] {
      var init, e := log[..|log| - 1], log[|log| - 1];
      MatchesWithoutDefaults(init, a, n);
      var rest := WithoutDefaults(init);
      assert (rest + [e])[..|rest + [e]| - 1] == rest;
    }
  }

  /** Dropping the default routes only changes the answers that were default routes. */
  lemma LongestMatchWithoutDefaults<V>(log: seq<Entry<V>>, a: Address)
    requires ValidLog(log) && ValidAddress(a)
    ensures LongestMatch(WithoutDefaults(log), a)
            == if BestLength(log, a) > 0 then LongestMatch(log, a) else []
  {
    BestWithoutDefaults(log, a);
    if BestLength(log, a) > 0 {
      MatchesWithoutDefaults(log, a, BestLength(log, a));
    } else {
      NoNegativeLength(WithoutDefaults(log), a);
    }
  }
}
