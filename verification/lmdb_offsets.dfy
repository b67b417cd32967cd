/** The crawler's output (src/LMDBLoader.h, struct LMDBOffsets): the tables
    of the store and the tagged byte extents of every key and value, plus
    the ordering the crawl leaves them in. */
module LMDBOffsets {
  import opened Ints

  /** One named sub-database, numbered in catalog order. */
  datatype Table = Table(tableId: uint16, name: string)

  /** A key or value extent. `kind` is the source's `type` field: 0 for a
      key, 1 for a value. `ref` is the start of the other half of the same
      record. */
  datatype Offset = Offset(tableId: uint16, kind: uint8, start: uint64, size: uint64, ref: uint64)

  datatype Dump = Dump(tables: seq<Table>, offsets: seq<Offset>)

  predicate SortedByStart(s: seq<Offset>) {
    forall i, j :: 0 <= i < j < |s| ==> s[i].start <= s[j].start
  }

  /** Places `o` in front of the first element whose start is not smaller. */
  function InsertByStart(o: Offset, s: seq<Offset>): (r: seq<Offset>)
    requires SortedByStart(s)
    ensures SortedByStart(r)
    ensures multiset(r) == multiset(s) + multiset{o}
    ensures r[0] == o || (|s| > 0 && r[0] == s[0])
  {
    if |s| == 0 || o.start <= s[0].start then
      ConsSorted(o, s);
      [o] + s
    else
      SortedTail(s);
      var rest := InsertByStart(o, s[1..]);
      assert s == [s[0]] + s[1..];
      ConsSorted(s[0], rest);
      [s[0]] + rest
  }

  /** An element no later than the head of a sorted list can go in front. */
  lemma ConsSorted(x: Offset, t: seq<Offset>)
    requires SortedByStart(t)
    requires |t| == 0 || x.start <= t[0].start
    ensures SortedByStart([x] + t)
  {
    forall i, j | 0 <= i < j < |t| + 1
      ensures ([x] + t)[i].start <= ([x] + t)[j].start
    {
      assert ([x] + t)[j] == t[j - 1];
      if i > 0 {
        assert ([x] + t)[i] == t[i - 1];
      }
    }
  }

  /** The `std::sort` by `start` at LMDBLoader.h:80-82. `std::sort` is not
      stable; this definition fixes one order among equal starts, and only
      what every such sort guarantees (sortedness, permutation) is claimed. */
  function SortByStart(s: seq<Offset>): (r: seq<Offset>)
    ensures SortedByStart(r)
    ensures multiset(r) == multiset(s)
    ensures |r| == |s|
  {
    if |s| == 0 then []
    else
      assert s == [s[0]] + s[1..];
      InsertByStart(s[0], SortByStart(s[1..]))
  }

  /** Dropping one element keeps a sorted list sorted. */
  lemma SortedWithout(b: seq<Offset>, i: nat)
    requires SortedByStart(b) && i < |b|
    ensures SortedByStart(b[..i] + b[i+1..])
    ensures multiset(b[..i] + b[i+1..]) == multiset(b) - multiset{b[i]}
  {
    var b' := b[..i] + b[i+1..];
    assert b == b[..i] + [b[i]] + b[i+1..];
    forall p, q | 0 <= p < q < |b'|
      ensures b'[p].start <= b'[q].start
    {
      var pp := if p < i then p else p + 1;
      var qq := if q < i then q else q + 1;
      assert b'[p] == b[pp] && b'[q] == b[qq];
    }
  }

  lemma SortedTail(a: seq<Offset>)
    requires SortedByStart(a) && |a| > 0
    ensures SortedByStart(a[1..])
  {
    forall p, q | 0 <= p < q < |a| - 1
      ensures a[1..][p].start <= a[1..][q].start
    {
      assert a[1..][p] == a[p+1] && a[1..][q] == a[q+1];
    }
  }

  /** Two sorted arrangements of the same extents begin with the same start. */
  lemma SortedPermutationsShareLeastStart(a: seq<Offset>, b: seq<Offset>)
    requires SortedByStart(a) && SortedByStart(b)
    requires multiset(a) == multiset(b) && |a| > 0
    ensures |b| > 0 && a[0].start == b[0].start
  {
    assert a[0] in multiset(b);
    assert |b| > 0;
    assert b[0] in multiset(a);
    var i :| 0 <= i < |b| && b[i] == a[0];
    var j :| 0 <= j < |a| && a[j] == b[0];
    assert b[0].start <= b[i].start;
    assert a[0].start <= a[j].start;
  }

  /** Putting `b[i]` back in front of `b` minus `b[i]` leaves every start in
      place when `b[i]` carries the least start. */
  lemma StartsRealign(a: seq<Offset>, b: seq<Offset>, i: nat)
    requires SortedByStart(b) && |a| == |b| && i < |b|
    requires b[i] == a[0] && b[0].start == a[0].start
    requires forall k :: 1 <= k < |a| ==> a[k].start == (b[..i] + b[i+1..])[k-1].start
    ensures forall k :: 0 <= k < |a| ==> a[k].start == b[k].start
  {
    var b' := b[..i] + b[i+1..];
    forall k | 0 <= k < |a|
      ensures a[k].start == b[k].start
    {
      if 0 < k <= i {
        assert b'[k-1] == b[k-1];
        assert b[0].start <= b[k-1].start <= b[k].start <= b[i].start;
      } else if i < k {
        assert b'[k-1] == b[k];
      }
    }
  }

  /** Any two sorted arrangements of the same extents have the same start at
      every position: the unspecified order of `std::sort` only permutes
      extents that share a start. */
  lemma {:induction false} SortedPermutationsAgreeOnStarts(a: seq<Offset>, b: seq<Offset>)
    requires SortedByStart(a) && SortedByStart(b)
    requires multiset(a) == multiset(b)
    ensures |a| == |b|
    ensures forall k :: 0 <= k < |a| ==> a[k].start == b[k].start
    decreases |a|
  {
    assert |a| == |multiset(a)| == |multiset(b)| == |b|;
    if |a| > 0 {
      SortedPermutationsShareLeastStart(a, b);
      assert a[0] in multiset(b);
      var i :| 0 <= i < |b| && b[i] == a[0];
      var b' := b[..i] + b[i+1..];
      SortedWithout(b, i);
      var a' := a[1..];
      SortedTail(a);
      assert a == [a[0]] + a';
      assert multiset(a') == multiset(b');
      SortedPermutationsAgreeOnStarts(a', b');
      forall k | 1 <= k < |a|
        ensures a[k].start == b'[k-1].start
      {
        assert a[k] == a'[k-1];
      }
      StartsRealign(a, b, i);
    }
  }
}
