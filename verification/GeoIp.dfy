/** The GeoIP database: one CSV file loaded all or nothing into two tries and an ASN index. */
module GeoIp {
  import opened Bits
  import opened Cidr
  import opened Collections
  import opened RadixTrie
  import opened Wrappers

  datatype Record = Record(country: string, countryCode: string, continent: string, continentCode: string,
                           asn: string, asName: string, asDomain: string)

  /** The prefix parser as a function of the text; it may leave host bits set. */
  type ParsePrefix = string -> Option<Block>

  /** One result of the CSV reader before end of file. */
  datatype CsvRead = Row(fields: seq<string>) | Broken

  function Header(): seq<string> {
    ["network", "country", "country_code", "continent", "continent_code", "asn", "as_name", "as_domain"]
  }

  // ---------- What a file means ----------

  ghost predicate ParsesValidBlocks(parse: ParsePrefix) {
    forall s :: parse(s).Some? ==> ValidBlock(parse(s).value)
  }

  predicate GoodRow(parse: ParsePrefix, read: CsvRead) {
    read.Row? && |read.fields| == 8 && parse(read.fields[0]).Some?
  }

  /** The exact header, then rows of eight fields whose first is a prefix, up to a clean end of file. */
  ghost predicate GoodFile(parse: ParsePrefix, input: seq<CsvRead>) {
    input != [] && input[0] == Row(Header()) && GoodRows(parse, input[1..])
  }

  ghost predicate GoodRows(parse: ParsePrefix, rows: seq<CsvRead>) {
    forall i :: 0 <= i < |rows| ==> GoodRow(parse, rows[i])
  }

  function RecordOf(fields: seq<string>): Record
    requires |fields| == 8
  {
    Record(fields[1], fields[2], fields[3], fields[4], fields[5], fields[6], fields[7])
  }

  /** The rows as entries under the prefixes as written, host bits and all. */
  ghost function Entries(parse: ParsePrefix, rows: seq<CsvRead>): (log: seq<Entry<Record>>)
    requires ParsesValidBlocks(parse) && GoodRows(parse, rows)
    ensures ValidLog(log) && |log| == |rows|
  {
    if rows == [] then []
    else
      var row := rows[|rows| - 1];
      Entries(parse, rows[..|rows| - 1]) + [Entry(parse(row.fields[0]).value, RecordOf(row.fields))]
  }

  /** The records with the given ASN text, in file order. */
  ghost function WithASN(log: seq<Entry<Record>>, asn: string): seq<Record> {
    if log == [] then []
    else
      var rest, r := WithASN(log[..|log| - 1], asn), log[|log| - 1].val;
      if r.asn == asn then rest + [r] else rest
  }

  ghost function FirstOf<T>(s: seq<T>): Option<T> {
    if s == [] then None else Some(s[0])
  }

  ghost function LastOf<T>(s: seq<T>): Option<T> {
    if s == [] then None else Some(s[|s| - 1])
  }

  /** The last record of the longest match, by position in the file: no later row of a containing
      block is as long, and none anywhere is longer. */
  lemma LastMatchIsLatest(log: seq<Entry<Record>>, a: Address)
    requires ValidLog(log) && ValidAddress(a)
    ensures match LastOf(LongestMatch(log, a))
            case None => forall i :: 0 <= i < |log| ==> !Contains(log[i].block, a)
            case Some(r) => exists i :: IsLatestMatch(log, a, i) && log[i].val == r
  {
    BestLengthIsLongest(log, a);
    if BestLength(log, a) == -1 {
      NoNegativeLength(log, a);
    } else {
      MatchesOfLengthNonEmpty(log, a, BestLength(log, a));
      var i := LastOfLength(log, a, BestLength(log, a));
      assert IsLatestMatch(log, a, i);
    }
  }

  ghost predicate IsLatestMatch(log: seq<Entry<Record>>, a: Address, i: int)
    requires ValidLog(log) && ValidAddress(a)
  {
    && 0 <= i < |log| && Contains(log[i].block, a)
    && forall j :: 0 <= j < |log| && Contains(log[j].block, a) ==>
         log[j].block.ones < log[i].block.ones || (log[j].block.ones == log[i].block.ones && j <= i)
  }

  lemma {:induction false} LastOfLength(log: seq<Entry<Record>>, a: Address, n: int) returns (i: nat)
    requires ValidLog(log) && ValidAddress(a) && MatchesOfLength(log, a, n) != []
    ensures i < |log| && Contains(log[i].block, a) && log[i].block.ones == n
    ensures LastOf(MatchesOfLength(log, a, n)) == Some(log[i].val)
    ensures forall j :: i < j < |log| && Contains(log[j].block, a) ==> log[j].block.ones != n
  {
    hide Contains;
    var last := |log| - 1;
    if Contains(log[last].block, a) && log[last].block.ones == n {
      i := last;
    } else {
      i := LastOfLength(log[..last], a, n);
    }
  }

  /** The first record of an ASN text, by position in the file. */
  lemma {:induction false} FirstWithASNIsEarliest(log: seq<Entry<Record>>, asn: string)
    ensures match FirstOf(WithASN(log, asn))
            case None => forall i :: 0 <= i < |log| ==> log[i].val.asn != asn
            case Some(r) => exists i :: 0 <= i < |log| && log[i].val == r && r.asn == asn
                                        && forall j :: 0 <= j < i ==> log[j].val.asn != asn
  {
    if log != [] {
      var init := log[..|log| - 1];
      FirstWithASNIsEarliest(init, asn);
      assert forall j :: 0 <= j < |init| ==> log[j] == init[j];
      if WithASN(init, asn) != [] {
        var i :| 0 <= i < |init| && init[i].val == WithASN(init, asn)[0]
                 && forall j :: 0 <= j < i ==> init[j].val.asn != asn;
        assert log[i].val == WithASN(log, asn)[0];
      }
    }
  }

  // ---------- The snapshot ----------

  /** Each key's node holds the last value entered under it; the other nodes hold nothing. */
  ghost predicate Stores(at: map<Path, Node<Option<Record>>>, m: map<Path, seq<Record>>)
    reads at.Values`value
  {
    && (forall p {:trigger p in m} :: p in m ==> p in at && m[p] != [])
    && (forall p {:trigger at[p]} :: p in at ==> at[p].value == if p in m then LastOf(m[p]) else None)
  }

  /** The ASN index holds the first record of each non-empty ASN text. */
  ghost predicate Indexed(asnIdx: map<string, Record>, log: seq<Entry<Record>>) {
    forall asn {:trigger asn in asnIdx} {:trigger WithASN(log, asn)} ::
      (if asn in asnIdx then Some(asnIdx[asn]) else None) == if asn == "" then None else FirstOf(WithASN(log, asn))
  }

  lemma LeafStores(leaf: Node<Option<Record>>, at: map<Path, Node<Option<Record>>>)
    requires leaf.value == None && at == map[Root := leaf]
    ensures Stores(at, map[])
  {
  }

  /** Both trees, which share no node, hold the entries of a log. */
  ghost predicate Trees(root4: Node<Option<Record>>, at4: map<Path, Node<Option<Record>>>,
                        root6: Node<Option<Record>>, at6: map<Path, Node<Option<Record>>>, log: seq<Entry<Record>>)
    reads at4.Values, at6.Values
  {
    && ValidLog(log)
    && Shape(root4, at4) && Stores(at4, Table(log, true))
    && Shape(root6, at6) && Stores(at6, Table(log, false))
    && at4.Values !! at6.Values
  }

  lemma NothingIndexed()
    ensures Indexed(map[], [])
  {
  }

  lemma NoEntries(root4: Node<Option<Record>>, at4: map<Path, Node<Option<Record>>>,
                  root6: Node<Option<Record>>, at6: map<Path, Node<Option<Record>>>)
    requires Shape(root4, at4) && Stores(at4, map[]) && Shape(root6, at6) && Stores(at6, map[])
    requires at4.Values !! at6.Values
    ensures Trees(root4, at4, root6, at6, [])
  {
    EmptyLog<Record>();
  }

  class Snapshot {
    const root4: Node<Option<Record>>
    const root6: Node<Option<Record>>
    var asnIdx: map<string, Record>
    var count: nat
    ghost var at4: map<Path, Node<Option<Record>>>
    ghost var at6: map<Path, Node<Option<Record>>>
    ghost var log: seq<Entry<Record>>

    ghost predicate Valid()
      reads this, at4.Values, at6.Values
    {
      Inserted(log) && count == |log| && Indexed(asnIdx, log)
    }

    ghost predicate Inserted(log: seq<Entry<Record>>)
      reads this`at4, this`at6, at4.Values, at6.Values
    {
      Trees(root4, at4, root6, at6, log)
    }

    ghost function Nodes(): set<object>
      reads this
    {
      at4.Values + at6.Values
    }

    constructor ()
      ensures Valid() && log == [] && fresh(Nodes())
    {
      hide Trees, Indexed, Stores, Shape;
      var leaf4, m4 := NewRoot<Option<Record>>(None);
      var leaf6, m6 := NewRoot<Option<Record>>(None);
      root4, at4, root6, at6 := leaf4, m4, leaf6, m6;
      asnIdx, count, log := map[], 0, [];
      new;
      LeafStores(root4, at4);
      LeafStores(root6, at6);
      NoEntries(root4, at4, root6, at6);
      NothingIndexed();
    }

    /** The body of the load loop after a row has been parsed. */
    method Add(prefix: Block, rec: Record)
      requires Valid() && ValidBlock(prefix)
      modifies this, Nodes()
      ensures Valid() && log == old(log) + [Entry(prefix, rec)] && fresh(Nodes() - old(Nodes()))
    {
      hide Inserted, Indexed;
      Insert(prefix, rec, log);
      count := count + 1;
      asnIdx := IndexASN(asnIdx, log, Entry(prefix, rec));
      log := log + [Entry(prefix, rec)];
    }

    /** The masked prefix goes into the tree of its family; the other tree keeps what it holds. */
    method Insert(prefix: Block, rec: Record, ghost log: seq<Entry<Record>>)
      requires Inserted(log) && ValidBlock(prefix)
      modifies this`at4, this`at6, Nodes()
      ensures Inserted(log + [Entry(prefix, rec)]) && fresh(Nodes() - old(Nodes()))
    {
      hide PathOf, Shape, Stores, Table, ValidLog, Masked, Cidr.Add, BitAt;
      TableAppend(log, Entry(prefix, rec));
      var b := Masked(prefix.addr, prefix.ones);
      MaskedPath(prefix.addr, prefix.ones);
      if prefix.v4 {
        at4 := InsertFrom(root4, b, prefix.ones, rec, at4, Table(log, true));
      } else {
        at6 := InsertFrom(root6, b, prefix.ones, rec, at6, Table(log, false));
      }
    }

    static method InsertFrom(root: Node<Option<Record>>, b: Bytes, ones: nat, rec: Record,
                             ghost at: map<Path, Node<Option<Record>>>, ghost m: map<Path, seq<Record>>)
      returns (ghost at': map<Path, Node<Option<Record>>>)
      requires Shape(root, at) && Stores(at, m) && ones <= 8 * |b|
      modifies at.Values
      ensures Shape(root, at') && fresh(at'.Values - at.Values)
      ensures Stores(at', Cidr.Add(m, PathOf(b, ones), rec))
    {
      hide Shape, PathOf;
      var node;
      node, at' := Descend(root, b, ones, None, at);
      node.value := Some(rec);
    }

    method LookupIP(ip: Address) returns (best: Option<Record>)
      requires Valid() && ValidAddress(ip)
      ensures best == LastOf(LongestMatch(log, ip))
    {
      DeepestAnswers(log, ip);
      if ip.v4 {
        best := LookupFrom(root4, ip.bytes, 32, at4, Table(log, true));
      } else {
        best := LookupFrom(root6, ip.bytes, 128, at6, Table(log, false));
      }
    }

    static method LookupFrom(root: Node<Option<Record>>, b: Bytes, bitLen: nat,
                             ghost at: map<Path, Node<Option<Record>>>, ghost m: map<Path, seq<Record>>)
      returns (best: Option<Record>)
      requires Shape(root, at) && Stores(at, m) && bitLen <= 8 * |b|
      ensures best == LastOf(DeepestValues(m, b, bitLen))
    {
      hide BitAt, Shape;
      RootInShape(root, at);
      var node: Node?<Option<Record>> := root;
      best := None;
      var i := 0;
      while i < bitLen && node != null
        invariant 0 <= i <= bitLen
        invariant if PathOf(b, i) in at then node == at[PathOf(b, i)] && node.place == PathOf(b, i) else node == null
        invariant best == if i == 0 then None else LastOf(DeepestValues(m, b, i - 1))
      {
        if node.value.Some? {
          best := node.value;
        }
        node := Next(root, at, node, BitAt(b, i));
        i := i + 1;
      }
      if node != null && node.value.Some? {
        best := node.value;
      }
      if node == null {
        NothingBelow(root, at, m, b, i, bitLen);
      }
    }
  }

  /** Only the first record seen for each ASN text is stored; records without one are not indexed. */
  method IndexASN(asnIdx: map<string, Record>, ghost log: seq<Entry<Record>>, e: Entry<Record>)
    returns (asnIdx': map<string, Record>)
    requires Indexed(asnIdx, log)
    ensures Indexed(asnIdx', log + [e])
  {
    assert (log + [e])[..|log + [e]| - 1] == log;
    asnIdx' := asnIdx;
    if e.val.asn != "" {
      if e.val.asn !in asnIdx {
        asnIdx' := asnIdx[e.val.asn := e.val];
      }
    }
  }

  // ---------- What is served, in terms of the file ----------

  /** The block a good row is about. */
  function RowBlock(parse: ParsePrefix, row: CsvRead): Block
    requires GoodRow(parse, row)
  {
    parse(row.fields[0]).value
  }

  lemma {:induction false} EntryOfRow(parse: ParsePrefix, rows: seq<CsvRead>, k: nat)
    requires ParsesValidBlocks(parse) && GoodRows(parse, rows) && k < |rows|
    ensures Entries(parse, rows)[k] == Entry(RowBlock(parse, rows[k]), RecordOf(rows[k].fields))
  {
    if k < |rows| - 1 {
      EntryOfRow(parse, rows[..|rows| - 1], k);
    }
  }

  /** A value stands in the column that the header gives this name. */
  ghost predicate InColumn(header: seq<string>, fields: seq<string>, name: string, val: string) {
    exists c :: 0 <= c < |header| && c < |fields| && header[c] == name && fields[c] == val
  }

  /** Every part of a record stands in the column named after it. */
  ghost predicate IsRecordOf(r: Record, header: seq<string>, fields: seq<string>) {
    && InColumn(header, fields, "country", r.country)
    && InColumn(header, fields, "country_code", r.countryCode)
    && InColumn(header, fields, "continent", r.continent)
    && InColumn(header, fields, "continent_code", r.continentCode)
    && InColumn(header, fields, "asn", r.asn)
    && InColumn(header, fields, "as_name", r.asName)
    && InColumn(header, fields, "as_domain", r.asDomain)
  }

  lemma RecordFollowsHeader(fields: seq<string>)
    requires |fields| == 8
    ensures IsRecordOf(RecordOf(fields), Header(), fields)
  {
    var h := Header();
    assert h[1] == "country" && h[2] == "country_code" && h[3] == "continent" && h[4] == "continent_code";
    assert h[5] == "asn" && h[6] == "as_name" && h[7] == "as_domain";
  }

  /** Row k covers the address, no row that does is longer, and no later one is as long. */
  ghost predicate ServingRow(parse: ParsePrefix, rows: seq<CsvRead>, a: Address, k: int)
    requires ParsesValidBlocks(parse) && GoodRows(parse, rows) && ValidAddress(a)
  {
    && 0 <= k < |rows| && Contains(RowBlock(parse, rows[k]), a)
    && forall j :: 0 <= j < |rows| && Contains(RowBlock(parse, rows[j]), a) ==>
         var x, y := RowBlock(parse, rows[j]).ones, RowBlock(parse, rows[k]).ones;
         x < y || (x == y && j <= k)
  }

  /** A lookup serves a row of the file, each part of it from the column of its name. */
  lemma ServedFromRow(parse: ParsePrefix, rows: seq<CsvRead>, a: Address)
    requires ParsesValidBlocks(parse) && GoodRows(parse, rows) && ValidAddress(a)
    ensures match LastOf(LongestMatch(Entries(parse, rows), a))
            case None => forall k :: 0 <= k < |rows| ==> !Contains(RowBlock(parse, rows[k]), a)
            case Some(r) => exists k :: ServingRow(parse, rows, a, k) && IsRecordOf(r, Header(), rows[k].fields)
  {
    hide Entries, Contains, LongestMatch, RecordOf, Header, IsRecordOf, RowBlock;
    var log := Entries(parse, rows);
    forall k | 0 <= k < |rows|
      ensures log[k] == Entry(RowBlock(parse, rows[k]), RecordOf(rows[k].fields))
    {
      EntryOfRow(parse, rows, k);
    }
    LastMatchIsLatest(log, a);
    if LastOf(LongestMatch(log, a)).Some? {
      var k :| IsLatestMatch(log, a, k) && log[k].val == LastOf(LongestMatch(log, a)).value;
      RecordFollowsHeader(rows[k].fields);
      assert ServingRow(parse, rows, a, k);
    }
  }

  /** Row k is the first whose ASN column reads as this text. */
  ghost predicate FirstRowOfASN(header: seq<string>, rows: seq<CsvRead>, asn: string, k: int) {
    && 0 <= k < |rows| && HasASN(header, rows[k], asn)
    && forall j :: 0 <= j < k ==> !HasASN(header, rows[j], asn)
  }

  ghost predicate HasASN(header: seq<string>, row: CsvRead, asn: string) {
    row.Row? && InColumn(header, row.fields, "asn", asn)
  }

  lemma ASNColumn(fields: seq<string>, asn: string)
    requires |fields| == 8
    ensures HasASN(Header(), Row(fields), asn) <==> RecordOf(fields).asn == asn
  {
    assert Header()[5] == "asn";
  }

  lemma FirstServedFromRow(parse: ParsePrefix, rows: seq<CsvRead>, asn: string)
    requires ParsesValidBlocks(parse) && GoodRows(parse, rows)
    ensures match FirstOf(WithASN(Entries(parse, rows), asn))
            case None => forall k :: 0 <= k < |rows| ==> !HasASN(Header(), rows[k], asn)
            case Some(r) => exists k :: FirstRowOfASN(Header(), rows, asn, k) && IsRecordOf(r, Header(), rows[k].fields)
  {
    hide Entries, WithASN, RecordOf, Header, IsRecordOf, HasASN;
    var log := Entries(parse, rows);
    forall k | 0 <= k < |rows|
      ensures log[k].val == RecordOf(rows[k].fields) && (HasASN(Header(), rows[k], asn) <==> log[k].val.asn == asn)
    {
      EntryOfRow(parse, rows, k);
      ASNColumn(rows[k].fields, asn);
    }
    FirstWithASNIsEarliest(log, asn);
    if FirstOf(WithASN(log, asn)).Some? {
      var r := FirstOf(WithASN(log, asn)).value;
      var k :| 0 <= k < |log| && log[k].val == r && r.asn == asn && forall j :: 0 <= j < k ==> log[j].val.asn != asn;
      RecordFollowsHeader(rows[k].fields);
      assert FirstRowOfASN(Header(), rows, asn, k);
    }
  }

  // ---------- The database ----------

  class DB {
    const current: Snapshot
    /** The file: what its header says, the rows below it, and how their prefixes are read. */
    ghost const header: seq<string>
    ghost const rows: seq<CsvRead>
    ghost const parse: ParsePrefix

    ghost predicate Valid()
      reads current, current.Nodes()
    {
      && ParsesValidBlocks(parse) && header == Header() && GoodRows(parse, rows)
      && current.Valid() && current.log == Entries(parse, rows)
    }

    constructor (snap: Snapshot, ghost parse: ParsePrefix, ghost rows: seq<CsvRead>)
      requires ParsesValidBlocks(parse) && GoodRows(parse, rows)
      requires snap.Valid() && snap.log == Entries(parse, rows)
      ensures Valid() && current == snap && header == Header() && this.parse == parse && this.rows == rows
    {
      current, header, this.parse, this.rows := snap, Header(), parse, rows;
    }

    method Lookup(ip: Option<Address>) returns (rec: Option<Record>)
      requires Valid() && (ip.Some? ==> ValidAddress(ip.value))
      ensures rec == if ip.None? then None else LastOf(LongestMatch(current.log, ip.value))
      ensures ip.Some? && rec.None? ==> forall k :: 0 <= k < |rows| ==> !Contains(RowBlock(parse, rows[k]), ip.value)
      ensures rec.Some? ==>
                ip.Some? && exists k :: ServingRow(parse, rows, ip.value, k) && IsRecordOf(rec.value, header, rows[k].fields)
    {
      if ip.None? {
        return None;
      }
      ServedFromRow(parse, rows, ip.value);
      rec := current.LookupIP(ip.value);
    }

    method LookupASN(asn: int) returns (rec: Option<Record>)
      requires Valid()
      ensures rec == FirstOf(WithASN(current.log, "AS" + Itoa(asn)))
      ensures rec.None? ==> forall k, text :: 0 <= k < |rows| && Denotes(text, asn) ==> !HasASN(header, rows[k], text)
      ensures rec.Some? ==>
                exists k, text :: Denotes(text, asn) && FirstRowOfASN(header, rows, text, k)
                                  && IsRecordOf(rec.value, header, rows[k].fields)
    {
      var key := "AS" + Itoa(asn);
      assert WithASN(current.log, key) == WithASN(current.log, key);
      FirstServedFromRow(parse, rows, key);
      OnlyOneKey(asn);
      rec := if key in current.asnIdx then Some(current.asnIdx[key]) else None;
    }
  }

  lemma EntriesStep(parse: ParsePrefix, rows: seq<CsvRead>, row: CsvRead)
    requires ParsesValidBlocks(parse) && GoodRows(parse, rows)
    ensures GoodRows(parse, rows + [row]) <==> GoodRow(parse, row)
    ensures GoodRow(parse, row) ==>
              ValidBlock(parse(row.fields[0]).value)
              && Entries(parse, rows + [row])
                 == Entries(parse, rows) + [Entry(parse(row.fields[0]).value, RecordOf(row.fields))]
  {
    assert (rows + [row])[..|rows + [row]| - 1] == rows;
    assert (rows + [row])[|rows|] == row;
  }

  /** All or nothing: a database comes out exactly when the whole file is well formed, and it then
      holds every row of it. */
  method Open(parse: ParsePrefix, input: seq<CsvRead>) returns (db: DB?)
    requires ParsesValidBlocks(parse)
    ensures db != null <==>
              && input != [] && input[0] == Row(["network", "country", "country_code", "continent",
                                                 "continent_code", "asn", "as_name", "as_domain"])
              && forall i :: 1 <= i < |input| ==>
                   input[i].Row? && |input[i].fields| == 8 && parse(input[i].fields[0]).Some?
    ensures db != null ==>
              && fresh(db) && db.Valid() && db.parse == parse
              && Row(db.header) == input[0] && db.rows == input[1..]
  {
    GoodFileSpelledOut(parse, input);
    hide Snapshot.Valid, Header, RecordOf, Entries, GoodRows;
    var snap := new Snapshot();
    if |input| == 0 || input[0].Broken? {
      return null;
    }
    if input[0].fields != Header() {
      return null;
    }
    ghost var rows := input[1..];
    EntriesOfNothing(parse);
    for i := 1 to |input|
      invariant GoodRows(parse, rows[..i - 1])
      invariant snap.Valid() && snap.log == Entries(parse, rows[..i - 1])
      invariant fresh(snap) && fresh(snap.Nodes())
    {
      var row := input[i];
      EntriesStep(parse, rows[..i - 1], row);
      assert rows[..i] == rows[..i - 1] + [row];
      if !GoodRow(parse, row) {
        return null;
      }
      snap.Add(parse(row.fields[0]).value, RecordOf(row.fields));
    }
    assert rows[..|rows|] == rows;
    db := new DB(snap, parse, rows);
  }

  lemma GoodFileSpelledOut(parse: ParsePrefix, input: seq<CsvRead>)
    ensures GoodFile(parse, input) <==>
              && input != [] && input[0] == Row(["network", "country", "country_code", "continent",
                                                 "continent_code", "asn", "as_name", "as_domain"])
              && forall i :: 1 <= i < |input| ==>
                   input[i].Row? && |input[i].fields| == 8 && parse(input[i].fields[0]).Some?
  {
    if input != [] {
      var rows := input[1..];
      assert forall i {:trigger input[i]} :: 1 <= i < |input| ==> input[i] == rows[i - 1];
      assert forall i {:trigger rows[i]} :: 0 <= i < |rows| ==> rows[i] == input[i + 1];
    }
  }

  lemma EntriesOfNothing(parse: ParsePrefix)
    requires ParsesValidBlocks(parse)
    ensures GoodRows(parse, []) && Entries(parse, []) == []
  {
  }

  // ---------- ASN keys ----------

  function Digits(n: nat): (s: string)
    ensures s != [] && forall i :: 0 <= i < |s| ==> '0' <= s[i] <= '9'
  {
    var last := [('0' as int + n % 10) as char];
    if n < 10 then last else Digits(n / 10) + last
  }

  function Itoa(i: int): (s: string)
    ensures s != []
  {
    if i < 0 then "-" + Digits(-i) else Digits(i)
  }

  lemma {:induction false} DigitsInjective(a: nat, b: nat)
    requires Digits(a) == Digits(b)
    ensures a == b
  {
    var s := Digits(a);
    assert s[|s| - 1] as int == '0' as int + a % 10 == '0' as int + b % 10;
    if a >= 10 && b >= 10 {
      assert Digits(a / 10) == s[..|s| - 1] == Digits(b / 10);
      DigitsInjective(a / 10, b / 10);
    }
  }

  /** The number a string of digits stands for. */
  ghost function Decimal(s: string): nat
    requires AllDigits(s)
  {
    if s == "" then 0 else 10 * Decimal(s[..|s| - 1]) + (s[|s| - 1] as int - '0' as int)
  }

  ghost predicate AllDigits(s: string) {
    forall i :: 0 <= i < |s| ==> '0' <= s[i] <= '9'
  }

  /** The decimal numeral of n: its digits, without a leading zero. */
  ghost predicate IsNumeral(s: string, n: nat) {
    s != "" && AllDigits(s) && Decimal(s) == n && (|s| > 1 ==> s[0] != '0')
  }

  ghost predicate IsInteger(s: string, i: int) {
    if i < 0 then s != "" && s[0] == '-' && IsNumeral(s[1..], -i) else IsNumeral(s, i)
  }

  /** An AS number as the file writes it. */
  ghost predicate Denotes(text: string, asn: int) {
    |text| >= 2 && text[0] == 'A' && text[1] == 'S' && IsInteger(text[2..], asn)
  }

  lemma {:induction false} DigitsAreNumeral(n: nat)
    ensures IsNumeral(Digits(n), n) && (n > 0 ==> Digits(n)[0] != '0')
  {
    var s := Digits(n);
    if n >= 10 {
      DigitsAreNumeral(n / 10);
      assert s[..|s| - 1] == Digits(n / 10);
    } else {
      assert s[..0] == "";
    }
  }

  lemma {:induction false} NumeralUnique(s: string, n: nat)
    requires IsNumeral(s, n)
    ensures s == Digits(n)
    decreases |s|
  {
    var init, last := s[..|s| - 1], s[|s| - 1];
    assert s == init + [last];
    NumeralInit(s, n);
    if |s| > 1 {
      hide Decimal, AllDigits, IsNumeral;
      NumeralUnique(init, n / 10);
    } else {
      assert init == "" && Decimal("") == 0;
    }
  }

  lemma NumeralInit(s: string, n: nat)
    requires IsNumeral(s, n)
    ensures s[|s| - 1] as int == '0' as int + n % 10
    ensures |s| > 1 ==> IsNumeral(s[..|s| - 1], n / 10) && s[..|s| - 1][0] != '0'
  {
  }

  lemma NumeralIsDigits(s: string, n: nat)
    ensures IsNumeral(s, n) <==> s == Digits(n)
  {
    DigitsAreNumeral(n);
    if IsNumeral(s, n) {
      NumeralUnique(s, n);
    }
  }

  lemma AfterSign(s: string, rest: string)
    ensures s == "-" + rest <==> s != "" && s[0] == '-' && s[1..] == rest
  {
  }

  lemma AfterAS(s: string, rest: string)
    ensures s == "AS" + rest <==> |s| >= 2 && s[0] == 'A' && s[1] == 'S' && s[2..] == rest
  {
  }

  lemma IntegerIsItoa(s: string, i: int)
    ensures IsInteger(s, i) <==> s == Itoa(i)
  {
    hide IsNumeral, Digits;
    if i < 0 {
      AfterSign(s, Digits(-i));
      if s != "" {
        NumeralIsDigits(s[1..], -i);
      }
    } else {
      NumeralIsDigits(s, i);
    }
  }

  /** The key looked up is the one text that denotes the number. */
  lemma KeyDenotes(text: string, asn: int)
    ensures Denotes(text, asn) <==> text == "AS" + Itoa(asn)
  {
    hide IsInteger, Itoa;
    AfterAS(text, Itoa(asn));
    if |text| >= 2 {
      IntegerIsItoa(text[2..], asn);
    }
  }

  lemma OnlyOneKey(asn: int)
    ensures forall text :: Denotes(text, asn) <==> text == "AS" + Itoa(asn)
  {
    forall text
      ensures Denotes(text, asn) <==> text == "AS" + Itoa(asn)
    {
      KeyDenotes(text, asn);
    }
  }

  /** Distinct AS numbers never share an index key, so a record answers for one number only. */
  lemma KeysInjective(a: int, b: int)
    requires "AS" + Itoa(a) == "AS" + Itoa(b)
    ensures a == b
  {
    hide Digits;
    SameRest("AS", Itoa(a), Itoa(b));
    if a < 0 && b < 0 {
      SameRest("-", Digits(-a), Digits(-b));
      DigitsInjective(-a, -b);
    } else if a >= 0 && b >= 0 {
      DigitsInjective(a, b);
    } else {
      SignDiffers(a, b);
    }
  }

  lemma SameRest(prefix: string, x: string, y: string)
    requires prefix + x == prefix + y
    ensures x == y
  {
    assert x == (prefix + x)[|prefix|..] && y == (prefix + y)[|prefix|..];
  }

  lemma SignDiffers(a: int, b: int)
    ensures (a < 0) != (b < 0) ==> Itoa(a)[..1] != Itoa(b)[..1]
  {
    assert |Itoa(a)| > 0 && |Itoa(b)| > 0;
    assert Itoa(a)[..1][0] == Itoa(a)[0] && Itoa(b)[..1][0] == Itoa(b)[0];
  }
}
