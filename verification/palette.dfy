/** The fixed colour palette and `getColour` (src/cmd_viz.cpp:17-40).
    Colours are 32-bit words with the alpha channel in the top byte. */
module Palette {

  /** The fifteen base colours, 24-bit RGB. */
  const Entries: seq<bv32> := [
    0x00aedb, 0xa200ff, 0xf47835, 0xd41243, 0x8ec127,
    0xff4e50, 0xfc913a, 0xf9d62e, 0xeae374, 0xe2f4c7,
    0xff00c1, 0x9600ff, 0x4900ff, 0x00b8ff, 0x70fff9
  ]

  /** XORed into a table's colour to tell its values from its keys. */
  const ValueMask: bv32 := 0x666666

  const AlphaMask: bv32 := 0xFF000000

  function Alpha(c: bv32): bv32 {
    c & AlphaMask
  }

  /** The colour of the key (`kind == 0`) or value (`kind != 0`) extents of
      table `tableId`: the palette entry picked by `tableId` modulo the
      palette's length, the value mask applied for values, and the alpha
      byte forced to 0xFF. */
  function GetColour(tableId: nat, kind: nat): (c: bv32)
    ensures Alpha(c) == AlphaMask
    ensures kind == 0 ==> c & 0x00FFFFFF == Entries[tableId % |Entries|]
    ensures kind != 0 ==> c & 0x00FFFFFF == Entries[tableId % |Entries|] ^ ValueMask
  {
    var col := Entries[tableId % |Entries|];
    var col' := if kind != 0 then col ^ ValueMask else col;
    col' | AlphaMask
  }

  /** A value colour is its key colour with the value mask applied. */
  lemma ValueColourIsMaskedKeyColour(tableId: nat, kind: nat)
    requires kind != 0
    ensures GetColour(tableId, kind) == GetColour(tableId, 0) ^ ValueMask
  {
  }

  /** Tables whose ids agree modulo fifteen share their colours. */
  lemma ColoursRepeatEveryFifteenTables(t1: nat, t2: nat, kind: nat)
    requires t1 % 15 == t2 % 15
    ensures GetColour(t1, kind) == GetColour(t2, kind)
  {
  }

  /** Every colour `getColour` can produce, indexed by palette slot and
      key/value. */
  function ColourAt(slot: nat, isValue: bool): bv32
    requires slot < 15
  {
    (if isValue then Entries[slot] ^ ValueMask else Entries[slot]) | AlphaMask
  }

  /** The thirty possible colours are pairwise different. */
  lemma ColourAtInjective(s1: nat, v1: bool, s2: nat, v2: bool)
    requires s1 < 15 && s2 < 15
    requires ColourAt(s1, v1) == ColourAt(s2, v2)
    ensures s1 == s2 && v1 == v2
  {
    if v1 && v2 {
      assert Entries[s1] ^ ValueMask == Entries[s2] ^ ValueMask;
    } else if !v1 && !v2 {
      assert Entries[s1] == Entries[s2];
    }
  }

  /** Two extents get the same colour exactly when their table ids agree
      modulo fifteen and both are keys or both are values. */
  lemma SameColourIff(t1: nat, k1: nat, t2: nat, k2: nat)
    ensures GetColour(t1, k1) == GetColour(t2, k2) <==> (t1 % 15 == t2 % 15 && (k1 == 0) == (k2 == 0))
  {
    assert GetColour(t1, k1) == ColourAt(t1 % 15, k1 != 0);
    assert GetColour(t2, k2) == ColourAt(t2 % 15, k2 != 0);
    if GetColour(t1, k1) == GetColour(t2, k2) {
      ColourAtInjective(t1 % 15, k1 != 0, t2 % 15, k2 != 0);
    }
  }
}
