/** The relocation table, the segment map, and the hop search that finds a first table index. */
module RelocTable {
  import opened Words

  // Destination segments (linuxkm_memory.h).
  const SEG_NONE := 1
  const SEG_TEXT := 2
  const SEG_RODATA := 3
  const SEG_RWDATA := 4
  const SEG_BSS := 5
  const SEG_OTHER := 6

  // Relocation types (linuxkm_memory.h); the AArch64 and ARM ones are 7 to 25.
  const R_NONE := 1
  const R_X86_64_32 := 2
  const R_X86_64_32S := 3
  const R_X86_64_64 := 4
  const R_X86_64_PC32 := 5
  const R_X86_64_PLT32 := 6
  const R_AARCH64_ABS32 := 7
  const R_AARCH64_ABS64 := 8
  const R_AARCH64_ADD_ABS_LO12_NC := 9
  const R_AARCH64_LDST8_ABS_LO12_NC := 13
  const R_AARCH64_LDST64_ABS_LO12_NC := 16
  const R_ARM_ABS32 := 18
  const R_ARM_THM_JUMP11 := 22
  const R_ARM_THM_MOVT_ABS := 24
  const N_LAYOUTS := 26

  /** One packed record: 16 bytes, the last four holding a 3-bit segment and a 5-bit type. */
  datatype Entry = Entry(offset: uint32, destOffset: uint32, destAddend: int32,
                         destSegment: nat, relocType: nat)

  const ENTRY_SIZE := 16

  /** Fencepost addresses, 0 where one is not known; memory is a sequence of bytes indexed by address. */
  datatype SegMap = SegMap(
    start: nat, end: nat,
    relocTabStart: nat, relocTabEnd: nat, relocTabLenStart: nat, relocTabLenEnd: nat,
    textStart: nat, textEnd: nat, fipsTextStart: nat, fipsTextEnd: nat,
    rodataStart: nat, rodataEnd: nat, fipsRodataStart: nat, fipsRodataEnd: nat,
    verifyCoreStart: nat, verifyCoreEnd: nat,
    dataStart: nat, dataEnd: nat, bssStart: nat, bssEnd: nat, textIsLive: bool)

  /** Number of bytes a relocation occupies; 0 stands for "no such layout". */
  function Width(relocType: nat): (n: nat)
    ensures n in {0, 2, 4, 8}
  {
    if relocType <= R_NONE || relocType >= N_LAYOUTS then 0
    else if relocType == R_X86_64_64 || relocType == R_AARCH64_ABS64 then 8
    else if relocType == R_ARM_THM_JUMP11 then 2
    else 4
  }

  predicate IsSigned(relocType: nat) {
    !(relocType in {R_X86_64_32, R_X86_64_64, R_AARCH64_ADD_ABS_LO12_NC, R_ARM_ABS32}
      || R_AARCH64_LDST8_ABS_LO12_NC <= relocType <= R_AARCH64_LDST64_ABS_LO12_NC
      || R_ARM_THM_MOVT_ABS <= relocType)
  }

  /** Only consulted for the x86 types: the others are never reconstructed. */
  predicate IsRelative(relocType: nat) {
    relocType == R_X86_64_PC32 || relocType == R_X86_64_PLT32
  }

  predicate KnownType(relocType: nat) { Width(relocType) != 0 }

  function ReadEntry(b: seq<byte>): Entry
    requires |b| == ENTRY_SIZE
  {
    var addend := DecodeWord(b[8..12]);
    var flags := DecodeWord(b[12..16]);
    Entry(DecodeWord(b[..4]), DecodeWord(b[4..8]),
          if addend < 0x8000_0000 then addend else addend - 0x1_0000_0000,
          flags % 8, (flags / 8) % 32)
  }

  /** Width in bits and signedness of the relocation types, by number, as the source tabulates them; 0 and 1 have no
      layout. */
  const LAYOUT_BITS: seq<nat> :=
    [0, 0, 32, 32, 64, 32, 32, 32, 64, 32, 32, 32, 32, 32, 32, 32, 32, 32, 32, 32, 32, 32, 16, 32, 32, 32]

  const LAYOUT_SIGNED: seq<bool> :=
    [false, false, false, true, false, true, true, true, true, false, true, true, true, false, false, false, false,
     true, false, true, true, true, true, true, false, false]

  lemma LayoutsAre(relocType: nat)
    ensures KnownType(relocType) <==> 2 <= relocType < 26
    ensures relocType < 26 ==> 8 * Width(relocType) == LAYOUT_BITS[relocType]
    ensures 2 <= relocType < 26 ==> IsSigned(relocType) == LAYOUT_SIGNED[relocType]
  {
  }

  /** A record as the table holds it: three 32-bit words, the last of them signed, and a word with the segment in its
      low three bits and the type in the five above. */
  function EntryBytes(e: Entry, unused: nat): seq<byte> {
    Encode(e.offset, 4) + Encode(e.destOffset, 4)
    + Encode(if e.destAddend < 0 then e.destAddend + 0x1_0000_0000 else e.destAddend, 4)
    + Encode(e.destSegment + 8 * e.relocType + 256 * unused, 4)
  }

  lemma WordReadsBack(v: nat)
    requires v < 0x1_0000_0000
    ensures DecodeWord(Encode(v, 4)) == v
  {
    DecodeEncode(v, 4);
    SpanValues();
  }

  /** A record is read back from its bytes, whatever its unused bits. */
  lemma EntryReadsBack(e: Entry, unused: nat)
    requires e.destSegment < 8 && e.relocType < 32 && unused < 0x100_0000
    ensures ReadEntry(EntryBytes(e, unused)) == e
  {
    hide Encode, Decode;
    var b := EntryBytes(e, unused);
    var addend := if e.destAddend < 0 then e.destAddend + 0x1_0000_0000 else e.destAddend;
    var flags := e.destSegment + 8 * e.relocType + 256 * unused;
    assert b[..4] == Encode(e.offset, 4) && b[4..8] == Encode(e.destOffset, 4);
    assert b[8..12] == Encode(addend, 4) && b[12..16] == Encode(flags, 4);
    WordReadsBack(e.offset);
    WordReadsBack(e.destOffset);
    WordReadsBack(addend);
    WordReadsBack(flags);
    assert flags % 8 == e.destSegment && (flags / 8) % 32 == e.relocType;
  }

  function ReadTable(mem: seq<byte>, start: nat, n: nat): (tab: seq<Entry>)
    requires start + ENTRY_SIZE * n <= |mem|
    ensures |tab| == n
    ensures forall k :: 0 <= k < n ==>
      tab[k] == ReadEntry(mem[start + ENTRY_SIZE * k..start + ENTRY_SIZE * k + ENTRY_SIZE])
  {
    if n == 0 then []
    else
      ReadTable(mem, start, n - 1) + [ReadEntry(mem[start + ENTRY_SIZE * (n - 1)..start + ENTRY_SIZE * n])]
  }

  /** The table and its length word lie in memory. */
  predicate TableMapped(mem: seq<byte>, sm: SegMap) {
    && sm.relocTabLenStart + 4 <= |mem|
    && sm.relocTabStart + ENTRY_SIZE * DecodeWord(mem[sm.relocTabLenStart..sm.relocTabLenStart + 4]) <= |mem|
  }

  function Table(mem: seq<byte>, sm: SegMap): seq<Entry>
    requires TableMapped(mem, sm)
  {
    ReadTable(mem, sm.relocTabStart, DecodeWord(mem[sm.relocTabLenStart..sm.relocTabLenStart + 4]))
  }

  ghost predicate Sorted(tab: seq<Entry>) {
    forall i, j :: 0 <= i <= j < |tab| ==> tab[i].offset <= tab[j].offset
  }

  /** Least index whose offset is at least `target`; the table length when there is none. */
  function LowerBound(tab: seq<Entry>, target: nat): (r: nat)
    ensures r <= |tab|
    ensures forall k :: 0 <= k < r ==> tab[k].offset < target
    ensures r < |tab| ==> tab[r].offset >= target
  {
    if tab == [] || tab[0].offset >= target then 0
    else 1 + LowerBound(tab[1..], target)
  }

  /** The index is a place where the offsets cross `target` upwards. */
  ghost predicate Crossing(tab: seq<Entry>, target: nat, r: int) {
    && 0 <= r < |tab|
    && tab[r].offset >= target
    && (r > 0 ==> tab[r - 1].offset < target)
  }

  /** When the search refuses to answer. */
  predicate SearchFails(sm: SegMap, tab: seq<Entry>, target: nat) {
    |tab| <= 1 || target >= (sm.textEnd - sm.textStart) % 0x1_0000_0000_0000_0000 || target >= tab[|tab| - 1].offset
  }

  /** A search is refused just when the table has at most one entry or the target lies behind the text or at or behind
      the last entry. */
  lemma SearchFailsExactly(sm: SegMap, tab: seq<Entry>, target: nat)
    requires sm.textStart <= sm.textEnd < 0x1_0000_0000_0000_0000
    ensures SearchFails(sm, tab, target) <==>
      |tab| < 2 || sm.textEnd <= sm.textStart + target || tab[|tab| - 1].offset <= target
  {
  }

  /** The probes stay inside the table: the remaining hops never reach past its end,
      and a position that has left 0 is at least twice the next hop, so stepping back keeps it positive. */
  method FindRelocTabOffset(sm: SegMap, tab: seq<Entry>, target: nat) returns (ret: int)
    ensures SearchFails(sm, tab, target) <==> ret == -1
    ensures ret != -1 ==> Crossing(tab, target, ret)
    ensures ret != -1 && Sorted(tab) ==> ret == LowerBound(tab, target)
  {
    var n := |tab|;
    if n <= 1 { return -1; }
    if target >= (sm.textEnd - sm.textStart) % 0x1_0000_0000_0000_0000 { return -1; }
    if target >= tab[n - 1].offset { return -1; }
    ret := 0;
    var hop := n / 2;
    while hop != 0
      invariant 0 <= ret < n && 0 <= hop
      invariant hop != 0 ==> ret + 2 * hop <= n
      invariant ret == 0 || ret >= 2 * hop
      decreases hop
    {
      if target == tab[ret].offset {
        break;
      } else if target > tab[ret].offset {
        ret := ret + hop;
      } else if ret != 0 {
        ret := ret - hop;
      }
      hop := hop / 2;
    }
    while ret < n - 1 && tab[ret].offset < target
      invariant 0 <= ret < n
      decreases n - ret
    {
      ret := ret + 1;
    }
    while ret > 0 && tab[ret - 1].offset >= target
      invariant 0 <= ret < n && tab[ret].offset >= target
      decreases ret
    {
      ret := ret - 1;
    }
  }
}
