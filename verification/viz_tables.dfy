/** The per-table state of the viewer and the space tally computed once
    after the crawl (src/cmd_viz.cpp:83-110). */
module Viz {
  import opened Ints
  import opened LMDBOffsets
  import LMDBLoader

  /** The viewer's row for one table: its visibility toggles and the key
      and value bytes it holds. */
  datatype TableState = TableState(
    name: string,
    tableId: uint16,
    keyVisible: bool,
    valVisible: bool,
    keySpace: uint64,
    valSpace: uint64)

  datatype LoadError = EmptyDb

  datatype Result<T> = Ok(value: T) | Err(error: LoadError)

  /** The crawl followed by the "empty db" check (cmd_viz.cpp:83-85). */
  function Load(cat: seq<LMDBLoader.NamedTable>, mapStart: uint64): (r: Result<Dump>)
    ensures r.Err? <==> |cat| == 0 || LMDBLoader.RecordCount(cat) == 0
    ensures r.Ok? ==> r.value == LMDBLoader.Crawl(cat, mapStart)
  {
    var d := LMDBLoader.Crawl(cat, mapStart);
    LMDBLoader.CrawlShape(cat, mapStart);
    if |d.tables| == 0 || |d.offsets| == 0 then Err(EmptyDb) else Ok(d)
  }

  /** Bytes of the key extents of the table at position `t`. */
  function KeyBytes(offs: seq<Offset>, t: nat): nat {
    if |offs| == 0 then 0
    else
      var o := offs[|offs| - 1];
      KeyBytes(offs[..|offs| - 1], t) + (if o.tableId == t && o.kind == 0 then o.size else 0)
  }

  /** Bytes of the value extents of the table at position `t`. */
  function ValBytes(offs: seq<Offset>, t: nat): nat {
    if |offs| == 0 then 0
    else
      var o := offs[|offs| - 1];
      ValBytes(offs[..|offs| - 1], t) + (if o.tableId == t && o.kind == 1 then o.size else 0)
  }

  /** Bytes of all extents. */
  function AllBytes(offs: seq<Offset>): nat {
    if |offs| == 0 then 0 else AllBytes(offs[..|offs| - 1]) + offs[|offs| - 1].size
  }

  predicate IdsIndex(offs: seq<Offset>, n: nat) {
    forall o :: o in offs ==> o.tableId < n
  }

  /** The row set up for a table of the dump (cmd_viz.cpp:99-101):
      visible, with nothing counted yet. */
  function FreshRow(t: Table): TableState {
    TableState(t.name, t.tableId, true, true, 0, 0)
  }

  /** The rows after the extents `offs` have been counted: each row keeps
      its table's name and id, is visible, and holds its key and value
      byte sums modulo 2^64. */
  predicate Tallied(tables: seq<TableState>, names: seq<Table>, offs: seq<Offset>) {
    && |tables| == |names|
    && forall t :: 0 <= t < |tables| ==>
      && tables[t].name == names[t].name
      && tables[t].tableId == names[t].tableId
      && tables[t].keyVisible && tables[t].valVisible
      && tables[t].keySpace == KeyBytes(offs, t) % TWO_64
      && tables[t].valSpace == ValBytes(offs, t) % TWO_64
  }

  /** The body of the tally loop for one extent (cmd_viz.cpp:107-108). */
  function CountExtent(tables: seq<TableState>, o: Offset): (r: seq<TableState>)
    requires o.tableId < |tables|
  {
    var row := tables[o.tableId];
    if o.kind == 0 then tables[o.tableId := row.(keySpace := AddU64(row.keySpace, o.size))]
    else if o.kind == 1 then tables[o.tableId := row.(valSpace := AddU64(row.valSpace, o.size))]
    else tables
  }

  /** Counting one more extent keeps the rows tallied. */
  lemma CountExtentTallies(tables: seq<TableState>, names: seq<Table>, offs: seq<Offset>, o: Offset)
    requires Tallied(tables, names, offs) && o.tableId < |tables|
    ensures Tallied(CountExtent(tables, o), names, offs + [o])
  {
    var offs' := offs + [o];
    assert offs'[..|offs|] == offs;
    var r := CountExtent(tables, o);
    forall t | 0 <= t < |r|
      ensures r[t].keySpace == KeyBytes(offs', t) % TWO_64
      ensures r[t].valSpace == ValBytes(offs', t) % TWO_64
    {
      if t == o.tableId && o.kind == 0 {
        AddU64Congruent(KeyBytes(offs, t), tables[t].keySpace, o.size);
      } else if t == o.tableId && o.kind == 1 {
        AddU64Congruent(ValBytes(offs, t), tables[t].valSpace, o.size);
      }
    }
  }

  /** The table rows set up from the crawl (cmd_viz.cpp:97-101) and the
      accumulation of key, value and total bytes over all extents
      (cmd_viz.cpp:104-110), every sum kept in uint64. */
  method TallySpace(d: Dump) returns (tables: seq<TableState>, totalSpace: uint64)
    requires IdsIndex(d.offsets, |d.tables|)
    ensures |tables| == |d.tables|
    ensures forall t :: 0 <= t < |tables| ==>
      && tables[t].name == d.tables[t].name
      && tables[t].tableId == d.tables[t].tableId
      && tables[t].keyVisible && tables[t].valVisible
      && tables[t].keySpace == KeyBytes(d.offsets, t) % TWO_64
      && tables[t].valSpace == ValBytes(d.offsets, t) % TWO_64
    ensures totalSpace == AllBytes(d.offsets) % TWO_64
  {
    tables := [];
    var i := 0;
    while i < |d.tables|
      invariant i <= |d.tables|
      invariant |tables| == i
      invariant forall t :: 0 <= t < i ==> tables[t] == FreshRow(d.tables[t])
    {
      tables := tables + [FreshRow(d.tables[i])];
      i := i + 1;
    }
    assert Tallied(tables, d.tables, d.offsets[..0]);

    totalSpace := 0;
    var j := 0;
    while j < |d.offsets|
      invariant j <= |d.offsets|
      invariant Tallied(tables, d.tables, d.offsets[..j])
      invariant totalSpace == AllBytes(d.offsets[..j]) % TWO_64
    {
      var o := d.offsets[j];
      assert o in d.offsets;
      assert d.offsets[..j + 1] == d.offsets[..j] + [o];
      CountExtentTallies(tables, d.tables, d.offsets[..j], o);
      tables := CountExtent(tables, o);
      AddU64Congruent(AllBytes(d.offsets[..j]), totalSpace, o.size);
      totalSpace := AddU64(totalSpace, o.size);
      j := j + 1;
    }
    assert d.offsets[..j] == d.offsets;
  }

  /** Sum over the first `n` table positions of key plus value bytes. */
  function TableBytes(offs: seq<Offset>, n: nat): nat {
    if n == 0 then 0 else TableBytes(offs, n - 1) + KeyBytes(offs, n - 1) + ValBytes(offs, n - 1)
  }

  lemma {:induction false} TableBytesSnoc(offs: seq<Offset>, o: Offset, n: nat)
    ensures TableBytes(offs + [o], n) ==
      TableBytes(offs, n) + (if o.tableId < n && (o.kind == 0 || o.kind == 1) then o.size else 0)
  {
    assert (offs + [o])[..|offs|] == offs;
    if n > 0 {
      TableBytesSnoc(offs, o, n - 1);
    }
  }

  /** When every extent is a key or a value of a listed table, the key and
      value bytes of all tables add up to the total: no byte is counted
      twice or lost. */
  lemma {:induction false} SpaceIsConserved(offs: seq<Offset>, n: nat)
    requires IdsIndex(offs, n)
    requires forall o :: o in offs ==> o.kind == 0 || o.kind == 1
    ensures TableBytes(offs, n) == AllBytes(offs)
    decreases |offs|
  {
    if |offs| == 0 {
      ZeroTableBytes(n);
    } else {
      var init := offs[..|offs| - 1];
      var o := offs[|offs| - 1];
      assert offs == init + [o];
      assert forall x :: x in init ==> x in offs;
      SpaceIsConserved(init, n);
      TableBytesSnoc(init, o, n);
    }
  }

  lemma {:induction false} ZeroTableBytes(n: nat)
    ensures TableBytes([], n) == 0
  {
    if n > 0 {
      ZeroTableBytes(n - 1);
    }
  }

  /** The crawl's output satisfies the tally's precondition, and unless a
      sum reaches 2^64 the per-table figures add up to the total. */
  lemma CrawlTallyAddsUp(cat: seq<LMDBLoader.NamedTable>, mapStart: uint64)
    ensures var d := LMDBLoader.Crawl(cat, mapStart);
      && IdsIndex(d.offsets, |d.tables|)
      && TableBytes(d.offsets, |d.tables|) == AllBytes(d.offsets)
  {
    var d := LMDBLoader.Crawl(cat, mapStart);
    LMDBLoader.CrawlShape(cat, mapStart);
    SpaceIsConserved(d.offsets, |d.tables|);
  }
}
