/** The pure part of `LMDBLoader::crawl` (src/LMDBLoader.h:38-85).

    The LMDB environment, transaction and cursors are not modelled; what
    they deliver is the input: the catalog's table names in enumeration
    order, each with its records in cursor order, every record given by
    the addresses and lengths of its key and value inside the memory map,
    plus the address where the map starts. */
module LMDBLoader {
  import opened Ints
  import opened LMDBOffsets

  /** One cursor position: where the key and the value lie in memory. */
  datatype Record = Record(keyAddr: uint64, keySize: uint64, valAddr: uint64, valSize: uint64)

  /** A named table of the catalog with its records in cursor order. */
  datatype NamedTable = NamedTable(name: string, records: seq<Record>)

  /** `address - mapStart` in uint64 arithmetic (LMDBLoader.h:68-69). There
      is no check against the map or file size, so an address below the map
      start wraps around. */
  function MapOffset(addr: uint64, mapStart: uint64): (r: uint64)
    ensures (mapStart + r) % TWO_64 == addr
    ensures mapStart <= addr ==> r == addr - mapStart
    ensures addr < mapStart ==> r == addr - mapStart + TWO_64
  {
    (addr - mapStart) % TWO_64
  }

  /** The running `currTableId` (uint64) stored into a uint16 field. */
  function TableIdOf(i: nat): (id: uint16)
    ensures i < TWO_16 ==> id == i
    ensures id <= i
  {
    i % TWO_16
  }

  function KeyExtent(id: uint16, r: Record, mapStart: uint64): Offset {
    Offset(id, 0, MapOffset(r.keyAddr, mapStart), r.keySize, MapOffset(r.valAddr, mapStart))
  }

  function ValExtent(id: uint16, r: Record, mapStart: uint64): Offset {
    Offset(id, 1, MapOffset(r.valAddr, mapStart), r.valSize, MapOffset(r.keyAddr, mapStart))
  }

  /** `p` is the other half of the record `o` belongs to. */
  predicate Partners(o: Offset, p: Offset) {
    && o.tableId == p.tableId
    && o.kind + p.kind == 1
    && o.ref == p.start
    && p.ref == o.start
  }

  /** Positions 2k and 2k+1 hold the key and the value of one record. */
  predicate PairAt(s: seq<Offset>, k: nat) {
    && 2 * k + 1 < |s|
    && s[2 * k].kind == 0
    && s[2 * k + 1].kind == 1
    && Partners(s[2 * k], s[2 * k + 1])
  }

  /** The two `emplace_back` calls per record of one table (LMDBLoader.h:66-73). */
  function RecordExtents(id: uint16, recs: seq<Record>, mapStart: uint64): (r: seq<Offset>)
    ensures |r| == 2 * |recs|
    ensures forall k :: 0 <= k < |recs| ==>
      r[2 * k] == KeyExtent(id, recs[k], mapStart) && r[2 * k + 1] == ValExtent(id, recs[k], mapStart)
    ensures forall o :: o in r ==> o.tableId == id && (o.kind == 0 || o.kind == 1)
  {
    if |recs| == 0 then []
    else
      var n := |recs| - 1;
      RecordExtents(id, recs[..n], mapStart) + [KeyExtent(id, recs[n], mapStart), ValExtent(id, recs[n], mapStart)]
  }

  function RecordCount(cat: seq<NamedTable>): nat {
    if |cat| == 0 then 0 else RecordCount(cat[..|cat| - 1]) + |cat[|cat| - 1].records|
  }

  /** Record `k` of table `i` has its key extent at position
      `2 * (r + k)` of `offs` and its value extent right after it, where `r`
      counts the records of the tables before `i`. */
  predicate RecordAt(cat: seq<NamedTable>, mapStart: uint64, offs: seq<Offset>, i: nat, k: nat)
    requires i < |cat| && k < |cat[i].records|
  {
    var p := 2 * (RecordCount(cat[..i]) + k);
    && p + 1 < |offs|
    && offs[p] == KeyExtent(TableIdOf(i), cat[i].records[k], mapStart)
    && offs[p + 1] == ValExtent(TableIdOf(i), cat[i].records[k], mapStart)
  }

  /** What the loop over table names (LMDBLoader.h:59-78) leaves for the
      catalog `cat`: table i has id i and the i-th name; there are two
      extents per record; positions 2k and 2k+1 hold the key and value of
      one record; every extent is a key or value of a listed table; and
      the records' extents lie in catalog and cursor order, which together
      with the length fixes every position. */
  predicate WellEmitted(cat: seq<NamedTable>, mapStart: uint64, d: Dump) {
    && |d.tables| == |cat|
    && (forall i :: 0 <= i < |cat| ==> d.tables[i] == Table(TableIdOf(i), cat[i].name))
    && |d.offsets| == 2 * RecordCount(cat)
    && (forall k :: 0 <= k < RecordCount(cat) ==> PairAt(d.offsets, k))
    && (forall o :: o in d.offsets ==> o.tableId < |cat| && (o.kind == 0 || o.kind == 1))
    && (forall i, k :: 0 <= i < |cat| && 0 <= k < |cat[i].records| ==> RecordAt(cat, mapStart, d.offsets, i, k))
  }

  /** The table list and the unsorted extent list after the loop over table
      names (LMDBLoader.h:59-78): table i gets id i, and its records' extents
      follow those of all earlier tables. */
  function Emit(cat: seq<NamedTable>, mapStart: uint64): (d: Dump)
    ensures WellEmitted(cat, mapStart, d)
  {
    if |cat| == 0 then Dump([], [])
    else
      var n := |cat| - 1;
      var prev := Emit(cat[..n], mapStart);
      EmitStep(cat, mapStart, prev);
      Dump(prev.tables + [Table(TableIdOf(n), cat[n].name)],
           prev.offsets + RecordExtents(TableIdOf(n), cat[n].records, mapStart))
  }

  /** Appending the last table of `cat` to what the loop left for the
      others gives what it leaves for `cat`. */
  lemma EmitStep(cat: seq<NamedTable>, mapStart: uint64, prev: Dump)
    requires |cat| > 0 && WellEmitted(cat[..|cat| - 1], mapStart, prev)
    ensures var n := |cat| - 1;
      WellEmitted(cat, mapStart,
        Dump(prev.tables + [Table(TableIdOf(n), cat[n].name)],
             prev.offsets + RecordExtents(TableIdOf(n), cat[n].records, mapStart)))
  {
    var n := |cat| - 1;
    var mine := RecordExtents(TableIdOf(n), cat[n].records, mapStart);
    EmitKeepsEarlierTables(cat, prev.tables);
    EmitKeepsPairs(cat, mapStart, prev.offsets, mine);
    EmitKeepsIds(cat, mapStart, prev.offsets, mine);
    EmitKeepsPositions(cat, mapStart, cat[..n], prev.offsets, mine);
  }

  /** The table list grows by the last table, under the next id. */
  lemma EmitKeepsEarlierTables(cat: seq<NamedTable>, prev: seq<Table>)
    requires |cat| > 0 && |prev| == |cat| - 1
    requires forall i :: 0 <= i < |cat| - 1 ==> prev[i] == Table(TableIdOf(i), cat[..|cat| - 1][i].name)
    ensures var n := |cat| - 1;
      forall i :: 0 <= i < |cat| ==> (prev + [Table(TableIdOf(n), cat[n].name)])[i] == Table(TableIdOf(i), cat[i].name)
  {
    var n := |cat| - 1;
    forall i | 0 <= i < n
      ensures (prev + [Table(TableIdOf(n), cat[n].name)])[i] == Table(TableIdOf(i), cat[i].name)
    {
      assert cat[..n][i] == cat[i];
    }
  }

  /** The record pairs of the last table follow those of the others. */
  lemma EmitKeepsPairs(cat: seq<NamedTable>, mapStart: uint64, prev: seq<Offset>, mine: seq<Offset>)
    requires |cat| > 0
    requires |prev| == 2 * RecordCount(cat[..|cat| - 1])
    requires forall k :: 0 <= k < RecordCount(cat[..|cat| - 1]) ==> PairAt(prev, k)
    requires mine == RecordExtents(TableIdOf(|cat| - 1), cat[|cat| - 1].records, mapStart)
    ensures |prev + mine| == 2 * RecordCount(cat)
    ensures forall k :: 0 <= k < RecordCount(cat) ==> PairAt(prev + mine, k)
  {
    var n := |cat| - 1;
    assert forall k :: 0 <= k < |cat[n].records| ==> PairAt(mine, k);
    PairsAppend(prev, mine, RecordCount(cat[..n]), |cat[n].records|);
  }

  /** The extents of the last table carry its id, which is below the
      number of tables. */
  lemma EmitKeepsIds(cat: seq<NamedTable>, mapStart: uint64, prev: seq<Offset>, mine: seq<Offset>)
    requires |cat| > 0
    requires forall o :: o in prev ==> o.tableId < |cat| - 1 && (o.kind == 0 || o.kind == 1)
    requires mine == RecordExtents(TableIdOf(|cat| - 1), cat[|cat| - 1].records, mapStart)
    ensures forall o :: o in prev + mine ==> o.tableId < |cat| && (o.kind == 0 || o.kind == 1)
  {
  }

  /** The extents of the last table's records follow those of all earlier
      tables, which keep their positions. */
  lemma EmitKeepsPositions(cat: seq<NamedTable>, mapStart: uint64, pre: seq<NamedTable>, prev: seq<Offset>, mine: seq<Offset>)
    requires |cat| > 0 && pre == cat[..|cat| - 1]
    requires |prev| == 2 * RecordCount(pre)
    requires forall i, k :: 0 <= i < |pre| && 0 <= k < |pre[i].records| ==> RecordAt(pre, mapStart, prev, i, k)
    requires mine == RecordExtents(TableIdOf(|cat| - 1), cat[|cat| - 1].records, mapStart)
    ensures forall i, k :: 0 <= i < |cat| && 0 <= k < |cat[i].records| ==> RecordAt(cat, mapStart, prev + mine, i, k)
  {
    var n := |cat| - 1;
    forall i, k | 0 <= i < |cat| && 0 <= k < |cat[i].records|
      ensures RecordAt(cat, mapStart, prev + mine, i, k)
    {
      if i == n {
        LastTablePosition(cat, mapStart, pre, prev, mine, k);
      } else {
        EarlierTablePosition(cat, mapStart, pre, prev, mine, i, k);
      }
    }
  }

  /** Record `k` of the last table lands right after the earlier tables'
      extents. */
  lemma LastTablePosition(cat: seq<NamedTable>, mapStart: uint64, pre: seq<NamedTable>, prev: seq<Offset>, mine: seq<Offset>, k: nat)
    requires |cat| > 0 && pre == cat[..|cat| - 1]
    requires |prev| == 2 * RecordCount(pre)
    requires mine == RecordExtents(TableIdOf(|cat| - 1), cat[|cat| - 1].records, mapStart)
    requires k < |cat[|cat| - 1].records|
    ensures RecordAt(cat, mapStart, prev + mine, |cat| - 1, k)
  {
    assert (prev + mine)[|prev| + 2 * k] == mine[2 * k];
    assert (prev + mine)[|prev| + 2 * k + 1] == mine[2 * k + 1];
  }

  /** A record of an earlier table keeps its position. */
  lemma EarlierTablePosition(cat: seq<NamedTable>, mapStart: uint64, pre: seq<NamedTable>, prev: seq<Offset>, mine: seq<Offset>, i: nat, k: nat)
    requires |cat| > 0 && pre == cat[..|cat| - 1]
    requires i < |pre| && k < |pre[i].records|
    requires RecordAt(pre, mapStart, prev, i, k)
    ensures k < |cat[i].records| && RecordAt(cat, mapStart, prev + mine, i, k)
  {
    assert pre[..i] == cat[..i] && pre[i] == cat[i];
    var p := 2 * (RecordCount(cat[..i]) + k);
    assert (prev + mine)[p] == prev[p] && (prev + mine)[p + 1] == prev[p + 1];
  }

  lemma PairsAppend(a: seq<Offset>, b: seq<Offset>, na: nat, nb: nat)
    requires |a| == 2 * na && |b| == 2 * nb
    requires forall k :: 0 <= k < na ==> PairAt(a, k)
    requires forall k :: 0 <= k < nb ==> PairAt(b, k)
    ensures forall k :: 0 <= k < na + nb ==> PairAt(a + b, k)
  {
    forall k | 0 <= k < na + nb
      ensures PairAt(a + b, k)
    {
      if k < na {
        assert PairAt(a, k);
      } else {
        assert PairAt(b, k - na);
        assert (a + b)[2 * k] == b[2 * (k - na)];
        assert (a + b)[2 * k + 1] == b[2 * (k - na) + 1];
      }
    }
  }

  /** `LMDBLoader::crawl`: emit, then sort the extents by start. */
  function Crawl(cat: seq<NamedTable>, mapStart: uint64): (d: Dump)
    ensures d.tables == Emit(cat, mapStart).tables
    ensures SortedByStart(d.offsets)
    ensures multiset(d.offsets) == multiset(Emit(cat, mapStart).offsets)
  {
    var e := Emit(cat, mapStart);
    Dump(e.tables, SortByStart(e.offsets))
  }

  /** `o` is the key or the value extent of some record of the catalog. */
  predicate IsRecordHalf(cat: seq<NamedTable>, mapStart: uint64, o: Offset) {
    exists i, k :: 0 <= i < |cat| && 0 <= k < |cat[i].records| &&
      (o == KeyExtent(TableIdOf(i), cat[i].records[k], mapStart) ||
       o == ValExtent(TableIdOf(i), cat[i].records[k], mapStart))
  }

  /** Record number `m` in catalog order is record `k` of table `i`. */
  lemma {:induction false} RecordIndex(cat: seq<NamedTable>, m: nat) returns (i: nat, k: nat)
    requires m < RecordCount(cat)
    ensures i < |cat| && k < |cat[i].records|
    ensures RecordCount(cat[..i]) + k == m
  {
    var n := |cat| - 1;
    var pre := cat[..n];
    if m < RecordCount(pre) {
      i, k := RecordIndex(pre, m);
      assert pre[..i] == cat[..i] && pre[i] == cat[i];
    } else {
      i, k := n, m - RecordCount(pre);
    }
  }

  /** Before the sort, every extent is the key or the value extent of a
      record: nothing else is emitted. */
  lemma EmittedExtentsAreRecordHalves(cat: seq<NamedTable>, mapStart: uint64)
    ensures forall o :: o in Emit(cat, mapStart).offsets ==> IsRecordHalf(cat, mapStart, o)
  {
    var e := Emit(cat, mapStart);
    forall o | o in e.offsets
      ensures IsRecordHalf(cat, mapStart, o)
    {
      var p :| 0 <= p < |e.offsets| && e.offsets[p] == o;
      var i, k := RecordIndex(cat, p / 2);
      assert RecordAt(cat, mapStart, e.offsets, i, k);
      HalfAtPosition(cat, mapStart, e.offsets, i, k, p);
    }
  }

  /** The two positions `RecordAt` names hold the record's two halves. */
  lemma HalfAtPosition(cat: seq<NamedTable>, mapStart: uint64, offs: seq<Offset>, i: nat, k: nat, p: nat)
    requires i < |cat| && k < |cat[i].records| && RecordAt(cat, mapStart, offs, i, k)
    requires p / 2 == RecordCount(cat[..i]) + k
    ensures p < |offs|
    ensures offs[p] == KeyExtent(TableIdOf(i), cat[i].records[k], mapStart) ||
            offs[p] == ValExtent(TableIdOf(i), cat[i].records[k], mapStart)
  {
  }

  /** Two extents per record, both halves of every record present, and
      every extent one of the two halves of a record of a listed table. */
  lemma CrawlShape(cat: seq<NamedTable>, mapStart: uint64)
    ensures var d := Crawl(cat, mapStart);
      && |d.tables| == |cat|
      && |d.offsets| == 2 * RecordCount(cat)
      && (forall o :: o in d.offsets ==> o.tableId < |d.tables| && (o.kind == 0 || o.kind == 1))
      && (forall o :: o in d.offsets ==> IsRecordHalf(cat, mapStart, o))
      && (forall i, k :: 0 <= i < |cat| && 0 <= k < |cat[i].records| ==>
            KeyExtent(TableIdOf(i), cat[i].records[k], mapStart) in d.offsets &&
            ValExtent(TableIdOf(i), cat[i].records[k], mapStart) in d.offsets)
  {
    var e := Emit(cat, mapStart);
    var d := Crawl(cat, mapStart);
    assert |d.offsets| == |multiset(d.offsets)| == |multiset(e.offsets)| == |e.offsets|;
    EmittedExtentsAreRecordHalves(cat, mapStart);
    forall o | o in d.offsets
      ensures o.tableId < |d.tables| && (o.kind == 0 || o.kind == 1)
      ensures IsRecordHalf(cat, mapStart, o)
    {
      assert o in multiset(e.offsets);
    }
    forall i, k | 0 <= i < |cat| && 0 <= k < |cat[i].records|
      ensures KeyExtent(TableIdOf(i), cat[i].records[k], mapStart) in d.offsets
      ensures ValExtent(TableIdOf(i), cat[i].records[k], mapStart) in d.offsets
    {
      assert RecordAt(cat, mapStart, e.offsets, i, k);
      var p := 2 * (RecordCount(cat[..i]) + k);
      assert e.offsets[p] in multiset(e.offsets) && e.offsets[p + 1] in multiset(e.offsets);
    }
  }

  /** In a list of adjacent key/value pairs every extent has its partner. */
  lemma PairedListHasPartners(s: seq<Offset>, n: nat, o: Offset)
    requires |s| == 2 * n
    requires forall k :: 0 <= k < n ==> PairAt(s, k)
    requires o in s
    ensures exists p :: p in s && Partners(o, p)
  {
    var j :| 0 <= j < |s| && s[j] == o;
    var k := j / 2;
    assert PairAt(s, k);
    if j == 2 * k {
      assert Partners(o, s[2 * k + 1]);
    } else {
      assert Partners(o, s[2 * k]);
    }
  }

  /** Sorting breaks up the adjacent key/value pairs, but every extent of
      the crawl still finds its partner among the sorted extents through
      `ref`. */
  lemma CrawlKeepsPartners(cat: seq<NamedTable>, mapStart: uint64)
    ensures var d := Crawl(cat, mapStart);
      forall o :: o in d.offsets ==> exists p :: p in d.offsets && Partners(o, p)
  {
    var e := Emit(cat, mapStart);
    var d := Crawl(cat, mapStart);
    forall o | o in d.offsets
      ensures exists p :: p in d.offsets && Partners(o, p)
    {
      assert o in multiset(e.offsets);
      PairedListHasPartners(e.offsets, RecordCount(cat), o);
      var p :| p in e.offsets && Partners(o, p);
      assert p in multiset(d.offsets);
    }
  }

  /** Table ids are the positions in catalog order, so `tables[o.tableId]`
      is the table an extent belongs to, as long as the ids do not
      overflow their 16 bits. */
  lemma TableIdsAreCatalogPositions(cat: seq<NamedTable>, mapStart: uint64)
    requires |cat| <= TWO_16
    ensures var d := Crawl(cat, mapStart);
      && |d.tables| == |cat|
      && (forall i :: 0 <= i < |cat| ==> d.tables[i].tableId == i && d.tables[i].name == cat[i].name)
      && (forall o :: o in d.offsets ==> o.tableId < |d.tables| && d.tables[o.tableId].tableId == o.tableId)
  {
    CrawlShape(cat, mapStart);
  }

  /** Key and value extents of one record point at each other and carry
      the record's two lengths. */
  lemma RecordHalvesPointAtEachOther(id: uint16, r: Record, mapStart: uint64)
    ensures Partners(KeyExtent(id, r, mapStart), ValExtent(id, r, mapStart))
    ensures (mapStart + KeyExtent(id, r, mapStart).start) % TWO_64 == r.keyAddr
    ensures (mapStart + ValExtent(id, r, mapStart).start) % TWO_64 == r.valAddr
    ensures KeyExtent(id, r, mapStart).kind == 0 && KeyExtent(id, r, mapStart).size == r.keySize
    ensures ValExtent(id, r, mapStart).kind == 1 && ValExtent(id, r, mapStart).size == r.valSize
  {
  }
}
