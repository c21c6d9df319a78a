/** The integrity hash over text and rodata, and the offline tool that stores it in the module file. */
module IntegrityHash {
  import opened Common
  import opened Words
  import opened RelocTable
  import opened RelocNormalize
  import opened RelocChunks
  import opened FipsText
  import opened RelocLink

  /** HMAC and hexadecimal encoding together, for one key: message to NUL-terminated digest string. */
  type DigestFn = seq<byte> -> seq<byte>

  predicate IsCString(s: seq<byte>, n: nat) {
    n > 0 && |s| == n && s[n - 1] == 0 && forall k :: 0 <= k < n - 1 ==> s[k] != 0
  }

  /** Every digest string has `n` bytes and its only NUL at the end. */
  ghost predicate DigestStrings(digest: DigestFn, n: nat) {
    forall m: seq<byte> :: IsCString(digest(m), n)
  }

  // ----- What is checked before anything is hashed -----

  datatype HashError = BadFuncArg | BufferE | BadAlign | BadState

  predicate OutOfOrder(sm: SegMap) {
    || (sm.end > 0 && sm.start >= sm.end)
    || sm.fipsTextStart >= sm.fipsTextEnd || sm.fipsRodataStart >= sm.fipsRodataEnd
    || (sm.relocTabEnd != 0 && sm.relocTabStart >= sm.relocTabEnd)
    || (sm.relocTabLenEnd != 0 && sm.relocTabLenStart >= sm.relocTabLenEnd)
    || sm.textStart >= sm.textEnd || sm.rodataStart >= sm.rodataEnd
    || sm.dataStart >= sm.dataEnd || sm.bssStart >= sm.bssEnd
  }

  predicate BelowStart(sm: SegMap) {
    || sm.fipsTextStart < sm.start || sm.fipsRodataStart < sm.start || sm.verifyCoreStart < sm.start
    || sm.relocTabStart < sm.start || sm.relocTabLenStart < sm.start
    || sm.textStart < sm.start || sm.rodataStart < sm.start || sm.dataStart < sm.start || sm.bssStart < sm.start
  }

  predicate PastEnd(sm: SegMap) {
    || sm.fipsTextEnd > sm.end || sm.fipsRodataEnd > sm.end || sm.verifyCoreEnd > sm.end
    || sm.relocTabEnd > sm.end || sm.relocTabLenEnd > sm.end
    || sm.textEnd > sm.end || sm.rodataEnd > sm.end || sm.dataEnd > sm.end || sm.bssEnd > sm.end
  }

  /** Fenceposts missing, out of order or out of bounds. */
  function FenceError(sm: SegMap): Option<HashError> {
    if sm.textIsLive && (sm.relocTabStart == 0 || sm.relocTabLenStart == 0) then Some(BadFuncArg)
    else if !sm.textIsLive && (sm.relocTabEnd == 0 || sm.relocTabLenEnd == 0) then Some(BadFuncArg)
    else if OutOfOrder(sm) then Some(BadFuncArg)
    else if sm.start > 0 && BelowStart(sm) then Some(BufferE)
    else if sm.end > 0 && PastEnd(sm) then Some(BufferE)
    else if sm.relocTabLenEnd != 0 && sm.relocTabLenEnd - sm.relocTabLenStart != 4 then Some(BadFuncArg)
    else if sm.relocTabLenStart % 4 != 0 then Some(BadAlign)
    else None
  }

  /** Start and end of every segment. */
  function Segments(sm: SegMap): seq<(nat, nat)> {
    [(sm.fipsTextStart, sm.fipsTextEnd), (sm.fipsRodataStart, sm.fipsRodataEnd), (sm.textStart, sm.textEnd),
     (sm.rodataStart, sm.rodataEnd), (sm.dataStart, sm.dataEnd), (sm.bssStart, sm.bssEnd)]
  }

  /** Start and end of what may be left open by an end of 0. */
  function OpenEnded(sm: SegMap): seq<(nat, nat)> {
    [(sm.start, sm.end), (sm.relocTabStart, sm.relocTabEnd), (sm.relocTabLenStart, sm.relocTabLenEnd)]
  }

  predicate AllNonEmpty(ps: seq<(nat, nat)>) { forall k :: 0 <= k < |ps| ==> ps[k].0 < ps[k].1 }

  predicate AllNonEmptyOrOpen(ps: seq<(nat, nat)>) { forall k :: 0 <= k < |ps| ==> ps[k].1 == 0 || ps[k].0 < ps[k].1 }

  predicate AllStartAt(ps: seq<(nat, nat)>, low: nat) { forall k :: 0 <= k < |ps| ==> low <= ps[k].0 }

  predicate AllEndBy(ps: seq<(nat, nat)>, high: nat) { forall k :: 0 <= k < |ps| ==> ps[k].1 <= high }

  lemma FenceErrorIs(sm: SegMap)
    ensures FenceError(sm) ==
      if (sm.textIsLive && (sm.relocTabStart == 0 || sm.relocTabLenStart == 0))
        || (!sm.textIsLive && (sm.relocTabEnd == 0 || sm.relocTabLenEnd == 0)) || OutOfOrder(sm)
      then Some(BadFuncArg)
      else if (sm.start > 0 && BelowStart(sm)) || (sm.end > 0 && PastEnd(sm)) then Some(BufferE)
      else if sm.relocTabLenEnd != 0 && sm.relocTabLenEnd - sm.relocTabLenStart != 4 then Some(BadFuncArg)
      else if sm.relocTabLenStart % 4 != 0 then Some(BadAlign)
      else None
  {
    hide OutOfOrder, BelowStart, PastEnd;
  }

  lemma OrderIs(sm: SegMap)
    ensures OutOfOrder(sm) <==> !AllNonEmpty(Segments(sm)) || !AllNonEmptyOrOpen(OpenEnded(sm))
  {
    var s, o := Segments(sm), OpenEnded(sm);
    assert AllNonEmpty(s) <==>
      && s[0].0 < s[0].1 && s[1].0 < s[1].1 && s[2].0 < s[2].1 && s[3].0 < s[3].1 && s[4].0 < s[4].1 && s[5].0 < s[5].1;
    assert AllNonEmptyOrOpen(o) <==>
      (o[0].1 == 0 || o[0].0 < o[0].1) && (o[1].1 == 0 || o[1].0 < o[1].1) && (o[2].1 == 0 || o[2].0 < o[2].1);
  }

  lemma StartsAre(sm: SegMap)
    ensures BelowStart(sm) <==>
      !AllStartAt(Segments(sm) + [(sm.verifyCoreStart, sm.verifyCoreEnd)] + OpenEnded(sm), sm.start)
  {
    var a := Segments(sm) + [(sm.verifyCoreStart, sm.verifyCoreEnd)] + OpenEnded(sm);
    var low := sm.start;
    assert AllStartAt(a, low) <==>
      && low <= a[0].0 && low <= a[1].0 && low <= a[2].0 && low <= a[3].0 && low <= a[4].0 && low <= a[5].0
      && low <= a[6].0 && low <= a[7].0 && low <= a[8].0 && low <= a[9].0;
  }

  lemma EndsAre(sm: SegMap)
    ensures PastEnd(sm) <==>
      !AllEndBy(Segments(sm) + [(sm.verifyCoreStart, sm.verifyCoreEnd)] + OpenEnded(sm), sm.end)
  {
    var a := Segments(sm) + [(sm.verifyCoreStart, sm.verifyCoreEnd)] + OpenEnded(sm);
    var high := sm.end;
    assert AllEndBy(a, high) <==>
      && a[0].1 <= high && a[1].1 <= high && a[2].1 <= high && a[3].1 <= high && a[4].1 <= high && a[5].1 <= high
      && a[6].1 <= high && a[7].1 <= high && a[8].1 <= high && a[9].1 <= high;
  }

  /** The fenceposts by lists: those of the table have to be given, every segment and every closed stretch is not empty,
      all of them and the stored digest lie within the module as far as its ends are known, and the table's length is
      one aligned 32-bit word. The first that fails is answered with its code. */
  lemma FencesExactly(sm: SegMap)
    ensures var all := Segments(sm) + [(sm.verifyCoreStart, sm.verifyCoreEnd)] + OpenEnded(sm);
      FenceError(sm) ==
        if 0 in (if sm.textIsLive then [sm.relocTabStart, sm.relocTabLenStart] else [sm.relocTabEnd, sm.relocTabLenEnd])
          || !AllNonEmpty(Segments(sm)) || !AllNonEmptyOrOpen(OpenEnded(sm))
        then Some(BadFuncArg)
        else if (sm.start > 0 && !AllStartAt(all, sm.start)) || (sm.end > 0 && !AllEndBy(all, sm.end))
        then Some(BufferE)
        else if sm.relocTabLenEnd > 0 && sm.relocTabLenEnd != sm.relocTabLenStart + 4 then Some(BadFuncArg)
        else if sm.relocTabLenStart % 4 > 0 then Some(BadAlign)
        else None
  {
    hide *;
    OrderIs(sm);
    StartsAre(sm);
    EndsAre(sm);
    FenceErrorIs(sm);
  }

  /** A table of `n` entries is not empty, stays in bounds and has the length its fenceposts say. */
  predicate SizeOk(sm: SegMap, n: nat) {
    && n > 0 && (sm.end != 0 ==> sm.relocTabStart + ENTRY_SIZE * n <= sm.end)
    && (sm.relocTabEnd != 0 ==> sm.relocTabEnd - sm.relocTabStart == ENTRY_SIZE * n)
  }

  predicate IsSentinel(e: Entry) { e.destSegment == SEG_NONE && e.relocType == R_NONE }

  /** What the checks ask of the table. */
  predicate TableOk(sm: SegMap, tab: seq<Entry>) { SizeOk(sm, |tab|) && IsSentinel(tab[|tab| - 1]) }

  // ----- What is handed to the HMAC -----

  datatype Range = Range(from: nat, len: nat)

  predicate Within(r: Range, limit: nat) { r.from + r.len <= limit }

  predicate DigestInRodata(sm: SegMap) { sm.fipsRodataStart <= sm.verifyCoreStart < sm.fipsRodataEnd }

  /** The FIPS rodata, up to the stored digest if that starts there. Lengths are cut to 32 bits. */
  function RodataFirst(sm: SegMap): Range {
    var to := if DigestInRodata(sm) then sm.verifyCoreStart else sm.fipsRodataEnd;
    Range(sm.fipsRodataStart, Truncate32(to - sm.fipsRodataStart))
  }

  /** And from there on: where the digest ends behind the rodata the length wraps. */
  function RodataSecond(sm: SegMap): Range {
    if DigestInRodata(sm) then Range(sm.verifyCoreEnd, Truncate32(sm.fipsRodataEnd - sm.verifyCoreEnd))
    else Range(sm.fipsRodataStart, 0)
  }

  predicate RodataWithin(sm: SegMap, limit: nat) {
    Within(RodataFirst(sm), limit) && Within(RodataSecond(sm), limit)
  }

  /** For a module that passes the checks and ends below 4 GiB, what is hashed of its rodata lies in the module if and
      only if a digest that starts in the rodata ends there. */
  lemma RodataWithinExactly(sm: SegMap)
    requires FenceError(sm) == None && 0 < sm.end < 0x1_0000_0000
    ensures RodataWithin(sm, sm.end) <==> (DigestInRodata(sm) ==> sm.verifyCoreEnd <= sm.fipsRodataEnd)
  {
    hide BelowStart;
    assert sm.fipsRodataEnd <= sm.end && sm.verifyCoreEnd <= sm.end && sm.fipsRodataStart < sm.fipsRodataEnd;
    hide FenceError;
  }

  /** Fenceposts that pass every check, of a digest that starts in the rodata and ends behind it. */
  lemma DigestPastRodata()
    ensures var sm := SegMap(0, 1000, 100, 116, 200, 204, 0, 100, 0, 100, 500, 860, 500, 800, 790, 860,
                             900, 910, 920, 930, false);
      FenceError(sm) == None && SizeOk(sm, 1) && !RodataWithin(sm, sm.end)
  {
  }

  // ----- What the checks vouch for -----

  /** The memory the checks themselves cannot vouch for: a module of known end is mapped up to there, one of unknown
      end as far as its fenceposts go. */
  predicate Mapped(mem: seq<byte>, sm: SegMap) {
    && sm.end <= |mem|
    && (sm.end == 0 || sm.relocTabLenEnd == 0 ==> sm.relocTabLenStart + 4 <= |mem|)
    && (sm.end == 0 ==> TableMapped(mem, sm) && sm.textEnd <= |mem|)
  }

  /** The checks pass. */
  predicate Checked(mem: seq<byte>, sm: SegMap) {
    FenceError(sm) == None && TableMapped(mem, sm) && TableOk(sm, Table(mem, sm))
  }

  lemma WordBytes(b: seq<byte>)
    requires |b| == 4
    ensures DecodeWord(b) == b[0] as int + 0x100 * b[1] as int + 0x1_0000 * b[2] as int + 0x100_0000 * b[3] as int
  {
    assert b[1..][1..] == b[2..] && b[2..][1..] == b[3..] && b[3..][1..] == [];
    assert Decode(b[1..]) == b[1] + 256 * Decode(b[2..]);
    assert Decode(b[2..]) == b[2] + 256 * Decode(b[3..]);
    assert Decode(b[3..]) == b[3] + 256 * Decode([]);
  }

  lemma FlagBits(low: nat, high: nat)
    requires low < 256
    ensures var flags := low + 256 * high; flags % 8 == 1 && (flags / 8) % 32 == 1 <==> low == 9
  {
    assert (low + 256 * high) / 8 == low / 8 + 32 * high;
    assert (low + 256 * high) % 8 == low % 8;
  }

  lemma SentinelByte(b: seq<byte>)
    requires |b| == ENTRY_SIZE
    ensures IsSentinel(ReadEntry(b)) <==> b[12] == 9
  {
    hide DecodeWord;
    var flags := b[12..16];
    WordBytes(flags);
    var high := flags[1] as int + 0x100 * flags[2] as int + 0x1_0000 * flags[3] as int;
    FlagBits(flags[0], high);
    assert DecodeWord(flags) == flags[0] + 256 * high;
  }

  /** The checks by bytes: the fenceposts pass, the four bytes of the length say how many records of 16 bytes there are,
      at least one, which end within the module and where their fencepost says, and the last has segment and type 1. */
  lemma CheckedExactly(mem: seq<byte>, sm: SegMap)
    requires sm.relocTabLenStart + 4 <= |mem|
    ensures var b := mem[sm.relocTabLenStart..sm.relocTabLenStart + 4];
      var end := sm.relocTabStart
        + 16 * (b[0] as int + 0x100 * b[1] as int + 0x1_0000 * b[2] as int + 0x100_0000 * b[3] as int);
      Checked(mem, sm) <==>
        && FenceError(sm) == None
        && sm.relocTabStart < end <= |mem| && mem[end - 4] == 9
        && (sm.end == 0 || end <= sm.end) && (sm.relocTabEnd == 0 || end == sm.relocTabEnd)
  {
    hide FenceError, ReadEntry, IsSentinel, DecodeWord;
    var b := mem[sm.relocTabLenStart..sm.relocTabLenStart + 4];
    WordBytes(b);
    var n := DecodeWord(b);
    var end := sm.relocTabStart + 16 * n;
    if 0 < n && end <= |mem| {
      SentinelByte(mem[end - 16..end]);
      assert Table(mem, sm)[n - 1] == ReadEntry(mem[end - 16..end]);
    }
  }

  /** Where the checks pass, text and table lie in memory. */
  lemma CheckedIsMapped(mem: seq<byte>, sm: SegMap)
    requires Mapped(mem, sm) && Checked(mem, sm)
    ensures sm.textStart < sm.textEnd <= |mem| && sm.fipsTextStart < sm.fipsTextEnd && Table(mem, sm) != []
  {
    hide TableMapped, Table, IsSentinel;
  }

  lemma LengthMapped(mem: seq<byte>, sm: SegMap)
    requires Mapped(mem, sm) && FenceError(sm) == None
    ensures sm.relocTabLenStart + 4 <= |mem|
  {
    hide TableMapped;
  }

  lemma LastEntry(mem: seq<byte>, sm: SegMap, n: nat)
    requires sm.relocTabLenStart + 4 <= |mem| && n > 0
    requires n == DecodeWord(mem[sm.relocTabLenStart..sm.relocTabLenStart + 4])
    requires sm.end <= |mem| && (sm.end == 0 ==> TableMapped(mem, sm))
    requires sm.end != 0 ==> sm.relocTabStart + 16 * n <= sm.end
    ensures TableMapped(mem, sm) && |Table(mem, sm)| == n
    ensures var at := sm.relocTabStart + 16 * (n - 1);
      at + 16 <= |mem| && Table(mem, sm)[n - 1] == ReadEntry(mem[at..at + 16])
  {
    hide DecodeWord, ReadEntry;
  }

  /** Checks fenceposts and table, reading no more of the table than has been checked. */
  method CheckModule(mem: seq<byte>, sm: SegMap) returns (e: Option<HashError>)
    requires Mapped(mem, sm)
    ensures FenceError(sm).Some? ==> e == FenceError(sm)
    ensures FenceError(sm).None? && e.Some? ==> e == Some(BadFuncArg)
    ensures e.None? <==> Checked(mem, sm)
  {
    hide DecodeWord, ReadEntry, ReadTable, OutOfOrder, BelowStart;
    e := FenceError(sm);
    if e.Some? {
      return;
    }
    LengthMapped(mem, sm);
    var n := DecodeWord(mem[sm.relocTabLenStart..sm.relocTabLenStart + 4]);
    if n == 0 {
      return Some(BadFuncArg);
    }
    if sm.end != 0 && sm.relocTabStart + 16 * n > sm.end {
      return Some(BadFuncArg);
    }
    var at := sm.relocTabStart + 16 * (n - 1);
    LastEntry(mem, sm, n);
    var last := ReadEntry(mem[at..at + 16]);
    if last.destSegment != SEG_NONE || last.relocType != R_NONE {
      return Some(BadFuncArg);
    }
    if sm.relocTabEnd != 0 && sm.relocTabEnd - sm.relocTabStart != 16 * n {
      return Some(BadFuncArg);
    }
    return None;
  }

  // ----- The message -----

  function Piece(mem: seq<byte>, r: Range): seq<byte>
    requires Within(r, |mem|)
  {
    mem[r.from..r.from + r.len]
  }

  /** What is hashed of the FIPS rodata. */
  function HashedRodata(mem: seq<byte>, sm: SegMap): seq<byte>
    requires RodataWithin(sm, |mem|)
  {
    Piece(mem, RodataFirst(sm)) + Piece(mem, RodataSecond(sm))
  }

  /** Rodata of less than 4 GiB is hashed as it stands, without a digest that starts and ends there. */
  lemma RodataIsAround(mem: seq<byte>, sm: SegMap)
    requires sm.fipsRodataStart <= sm.fipsRodataEnd <= |mem| && sm.fipsRodataEnd - sm.fipsRodataStart < 0x1_0000_0000
    requires sm.fipsRodataStart <= sm.verifyCoreStart < sm.fipsRodataEnd ==>
      sm.verifyCoreStart <= sm.verifyCoreEnd <= sm.fipsRodataEnd
    ensures RodataWithin(sm, |mem|)
    ensures HashedRodata(mem, sm) ==
      if sm.fipsRodataStart <= sm.verifyCoreStart < sm.fipsRodataEnd then
        mem[sm.fipsRodataStart..sm.verifyCoreStart] + mem[sm.verifyCoreEnd..sm.fipsRodataEnd]
      else mem[sm.fipsRodataStart..sm.fipsRodataEnd]
  {
  }

  /** Segments and table lie in memory, and the table is well formed. */
  ghost predicate GoodModule(mem: seq<byte>, sm: SegMap) {
    && sm.textStart < sm.textEnd <= |mem| && sm.textEnd - sm.textStart < 0x1_0000_0000
    && sm.fipsTextStart < sm.fipsTextEnd
    && sm.fipsRodataStart <= sm.fipsRodataEnd && RodataWithin(sm, |mem|)
    && TableMapped(mem, sm) && WellFormed(Table(mem, sm))
  }

  /** The checks pass and the FIPS text can be normalised. */
  ghost predicate CanHash(mem: seq<byte>, sm: SegMap)
    requires GoodModule(mem, sm)
  {
    Checked(mem, sm) && Hashable(sm, Table(mem, sm))
  }

  /** The HMAC input. */
  ghost function Message(mem: seq<byte>, sm: SegMap, over: OversizeShift): seq<byte>
    requires GoodModule(mem, sm) && CanHash(mem, sm)
  {
    NormalizedFipsText(mem, sm, Table(mem, sm), over) + HashedRodata(mem, sm)
  }

  datatype HashResult = Digest(text: seq<byte>) | Error(code: HashError) | Overread

  lemma CheckedMapsTable(mem: seq<byte>, sm: SegMap)
    requires Checked(mem, sm)
    ensures FenceError(sm) == None && TableMapped(mem, sm)
  {
    hide FenceError, TableMapped, TableOk, Table;
  }

  lemma CanHashMeans(mem: seq<byte>, sm: SegMap)
    ensures GoodModule(mem, sm) ==>
      (CanHash(mem, sm) <==> Checked(mem, sm) && Hashable(sm, Table(mem, sm))) && Sound(sm, Table(mem, sm))
    ensures GoodModule(mem, sm) ==>
      sm.textStart < sm.textEnd <= |mem| && TableMapped(mem, sm) && RodataWithin(sm, |mem|)
    ensures Checked(mem, sm) ==> FenceError(sm) == None && TableMapped(mem, sm)
  {
    hide Checked, Hashable, WellFormed, TableMapped, Table, FenceError, RodataWithin;
    if Checked(mem, sm) {
      CheckedMapsTable(mem, sm);
    }
  }

  lemma FedIsMessage(mem: seq<byte>, sm: SegMap, over: OversizeShift, text: seq<byte>, was: Counts, now: Counts)
    requires sm.textEnd <= |mem| && TableMapped(mem, sm) && RodataWithin(sm, |mem|)
    requires Sound(sm, Table(mem, sm)) && Hashable(sm, Table(mem, sm)) ==>
      FedOnce(mem, sm, Table(mem, sm), over, [], text, was, now)
    ensures GoodModule(mem, sm) && CanHash(mem, sm) ==>
      && text + HashedRodata(mem, sm) == Message(mem, sm, over)
      && CountedOnce(was, now, Table(mem, sm), sm.fipsTextStart - sm.textStart, sm.fipsTextEnd - sm.textStart)
  {
    hide Checked, WellFormed, Table, HashedRodata, NormalizedFipsText, CountedOnce, StraddlesEnd;
    if GoodModule(mem, sm) && CanHash(mem, sm) {
      var norm := NormalizedFipsText(mem, sm, Table(mem, sm), over);
      assert [] + norm == norm;
    }
  }

  /** Feeds the rodata in one or two pieces; stops where a piece does not lie in memory. */
  method HashRodata(mem: seq<byte>, sm: SegMap, hmac: HmacCtx) returns (ok: bool)
    modifies hmac
    ensures ok <==> RodataWithin(sm, |mem|)
    ensures ok ==> hmac.message == old(hmac.message) + HashedRodata(mem, sm)
  {
    hide Truncate32;
    if sm.fipsRodataStart <= sm.verifyCoreStart && sm.verifyCoreStart < sm.fipsRodataEnd {
      var front := Truncate32(sm.verifyCoreStart - sm.fipsRodataStart);
      var back := Truncate32(sm.fipsRodataEnd - sm.verifyCoreEnd);
      if sm.fipsRodataStart + front > |mem| {
        return false;
      }
      hmac.Update(mem[sm.fipsRodataStart..sm.fipsRodataStart + front]);
      if sm.verifyCoreEnd + back > |mem| {
        return false;
      }
      hmac.Update(mem[sm.verifyCoreEnd..sm.verifyCoreEnd + back]);
    } else {
      var whole := Truncate32(sm.fipsRodataEnd - sm.fipsRodataStart);
      if sm.fipsRodataStart + whole > |mem| {
        return false;
      }
      hmac.Update(mem[sm.fipsRodataStart..sm.fipsRodataStart + whole]);
      assert mem[0..0] == [];
    }
    return true;
  }

  /** Computes the digest string of a module in memory. A module that fails a check is answered with that check's
      error. For any other, success means the digest of as many bytes as the FIPS text has, then the rodata; and
      for a well-formed table exactly the modules that can be hashed are, and by their message. Nothing is promised
      once memory is left. */
  method GenerateHash(mem: seq<byte>, sm: SegMap, over: OversizeShift, bufsiz: nat, digest: DigestFn,
                      counts: RelocCounts)
      returns (r: HashResult)
    requires Mapped(mem, sm) && 8 <= bufsiz
    modifies counts
    ensures FenceError(sm).Some? ==> r == Error(FenceError(sm).value)
    ensures FenceError(sm).None? && !Checked(mem, sm) ==> r == Error(BadFuncArg)
    ensures r == Overread ==> Checked(mem, sm) && !RodataWithin(sm, |mem|)
    ensures Checked(mem, sm) && r != Overread && r != Error(BadState) ==>
      && sm.fipsTextStart < sm.fipsTextEnd && RodataWithin(sm, |mem|)
      && exists text: seq<byte> ::
           |text| == sm.fipsTextEnd - sm.fipsTextStart && r == Digest(digest(text + HashedRodata(mem, sm)))
    ensures GoodModule(mem, sm) ==> (r.Digest? <==> CanHash(mem, sm))
    ensures GoodModule(mem, sm) && r.Digest? ==>
      && r.text == digest(Message(mem, sm, over))
      && CountedOnce(old(counts.View()), counts.View(), Table(mem, sm),
                     sm.fipsTextStart - sm.textStart, sm.fipsTextEnd - sm.textStart)
  {
    hide *;
    CanHashMeans(mem, sm);
    var e := CheckModule(mem, sm);
    if e.Some? {
      return Error(e.value);
    }
    CheckedMapsTable(mem, sm);
    CheckedIsMapped(mem, sm);
    var hmac := new HmacCtx();
    ghost var was := counts.View();
    var ok := HashFipsText(mem, sm, Table(mem, sm), over, bufsiz, hmac, counts);
    if !ok {
      return Error(BadState);
    }
    ghost var text := hmac.message;
    ok := HashRodata(mem, sm, hmac);
    if !ok {
      return Overread;
    }
    FedIsMessage(mem, sm, over, text, was, counts.View());
    r := Digest(digest(hmac.message));
    assert |text| == sm.fipsTextEnd - sm.fipsTextStart && r == Digest(digest(text + HashedRodata(mem, sm)));
  }

  // ----- The digest is outside its own input -----

  predicate Apart(sm: SegMap, from: nat, to: nat) {
    to <= sm.verifyCoreStart || sm.verifyCoreEnd <= from
  }

  /** The `n` bytes of the stored digest lie in the FIPS rodata or apart from it, and apart from text, table and table
      length. */
  predicate DigestApart(sm: SegMap, tabLen: nat, n: nat) {
    && sm.verifyCoreEnd == sm.verifyCoreStart + n && n > 0
    && ((sm.fipsRodataStart <= sm.verifyCoreStart && sm.verifyCoreEnd <= sm.fipsRodataEnd)
        || Apart(sm, sm.fipsRodataStart, sm.fipsRodataEnd))
    && Apart(sm, sm.textStart, sm.textEnd)
    && Apart(sm, sm.relocTabLenStart, sm.relocTabLenStart + 4)
    && Apart(sm, sm.relocTabStart, sm.relocTabStart + ENTRY_SIZE * tabLen)
  }

  ghost predicate SameOutsideDigest(mem: seq<byte>, mem': seq<byte>, sm: SegMap) {
    |mem| == |mem'| && forall a :: 0 <= a < |mem| && !(sm.verifyCoreStart <= a < sm.verifyCoreEnd) ==> mem[a] == mem'[a]
  }

  lemma SliceApart(mem: seq<byte>, mem': seq<byte>, sm: SegMap, from: nat, to: nat)
    requires SameOutsideDigest(mem, mem', sm) && from <= to <= |mem| && Apart(sm, from, to)
    ensures mem[from..to] == mem'[from..to]
  {
  }

  lemma {:induction false} SameTable(mem: seq<byte>, mem': seq<byte>, sm: SegMap, start: nat, n: nat)
    requires SameOutsideDigest(mem, mem', sm) && start + ENTRY_SIZE * n <= |mem|
    requires Apart(sm, start, start + ENTRY_SIZE * n)
    ensures ReadTable(mem, start, n) == ReadTable(mem', start, n)
  {
    hide ReadEntry;
    if n > 0 {
      SameTable(mem, mem', sm, start, n - 1);
      SliceApart(mem, mem', sm, start + ENTRY_SIZE * (n - 1), start + ENTRY_SIZE * n);
    }
  }

  lemma RodataPiecesApart(sm: SegMap, tabLen: nat, n: nat)
    requires DigestApart(sm, tabLen, n) && sm.fipsRodataStart <= sm.fipsRodataEnd
    ensures var first, second := RodataFirst(sm), RodataSecond(sm);
      && Apart(sm, first.from, first.from + first.len)
      && (second.len == 0 || Apart(sm, second.from, second.from + second.len))
  {
    hide Truncate32;
  }

  lemma SameRodata(mem: seq<byte>, mem': seq<byte>, sm: SegMap, tabLen: nat, n: nat)
    requires SameOutsideDigest(mem, mem', sm) && DigestApart(sm, tabLen, n)
    requires sm.fipsRodataStart <= sm.fipsRodataEnd && RodataWithin(sm, |mem|)
    ensures HashedRodata(mem', sm) == HashedRodata(mem, sm)
  {
    hide RodataFirst, RodataSecond, DigestApart, Apart;
    var first, second := RodataFirst(sm), RodataSecond(sm);
    RodataPiecesApart(sm, tabLen, n);
    SliceApart(mem, mem', sm, first.from, first.from + first.len);
    if second.len > 0 {
      SliceApart(mem, mem', sm, second.from, second.from + second.len);
    }
  }

  lemma SameModule(mem: seq<byte>, mem': seq<byte>, sm: SegMap, n: nat)
    requires GoodModule(mem, sm) && SameOutsideDigest(mem, mem', sm) && DigestApart(sm, |Table(mem, sm)|, n)
    ensures GoodModule(mem', sm) && Table(mem', sm) == Table(mem, sm)
    ensures Text(mem', sm) == Text(mem, sm) && HashedRodata(mem', sm) == HashedRodata(mem, sm)
  {
    hide WellFormed, DecodeWord, ReadTable;
    SliceApart(mem, mem', sm, sm.relocTabLenStart, sm.relocTabLenStart + 4);
    SameTable(mem, mem', sm, sm.relocTabStart, |Table(mem, sm)|);
    SliceApart(mem, mem', sm, sm.textStart, sm.textEnd);
    SameRodata(mem, mem', sm, |Table(mem, sm)|, n);
  }

  lemma GoodModuleFacts(file: seq<byte>, sm: SegMap)
    requires GoodModule(file, sm)
    ensures TableMapped(file, sm) && sm.textStart <= sm.textEnd <= |file|
    ensures WellFormed(Table(file, sm)) && |Text(file, sm)| == sm.textEnd - sm.textStart
  {
  }

  /** The HMAC input, and whether it can be formed, depend only on memory outside the stored digest. */
  lemma MessageIgnoresDigest(mem: seq<byte>, mem': seq<byte>, sm: SegMap, over: OversizeShift, n: nat)
    requires GoodModule(mem, sm) && SameOutsideDigest(mem, mem', sm) && DigestApart(sm, |Table(mem, sm)|, n)
    ensures GoodModule(mem', sm) && (CanHash(mem', sm) <==> CanHash(mem, sm))
    ensures CanHash(mem, sm) ==> Message(mem', sm, over) == Message(mem, sm, over)
  {
    hide GoodModule, Table, HashedRodata, Hashable, Text, NormText, FenceError, TableOk;
    SameModule(mem, mem', sm, n);
    GoodModuleFacts(mem, sm);
    GoodModuleFacts(mem', sm);
  }

  lemma SameFront(front: seq<byte>, a: seq<byte>, b: seq<byte>)
    ensures front + a == front + b <==> a == b
  {
    assert (front + a)[|front|..] == a && (front + b)[|front|..] == b;
  }

  /** At any load address, the kernel computing the hash of the loaded module feeds the HMAC what the offline tool
      fed it for the file if and only if the loaded rodata, the digest aside, is that of the file. */
  lemma LiveEqualsOffline(mem: seq<byte>, sm: SegMap, file: seq<byte>, off: SegMap, image: seq<byte>, syms: seq<nat>,
                          over: OversizeShift)
    requires GoodModule(mem, sm) && CanHash(mem, sm) && sm.textIsLive
    requires GoodModule(file, off) && CanHash(file, off) && !off.textIsLive
    requires Table(mem, sm) == Table(file, off)
    requires sm.fipsTextStart - sm.textStart == off.fipsTextStart - off.textStart
    requires sm.fipsTextEnd - sm.textStart == off.fipsTextEnd - off.textStart
    requires |syms| == |Table(file, off)| && |image| == |Text(file, off)| == |Text(mem, sm)|
    requires var tab, lo, hi := Table(file, off), off.fipsTextStart - off.textStart, off.fipsTextEnd - off.textStart;
      && Linked(sm, tab, lo, hi, image, syms, Text(mem, sm))
      && SameOutside(tab, lo, hi, image, Text(file, off))
      && forall k: nat :: InRange(tab, lo, hi, k) ==> tab[k].destOffset == syms[k]
    ensures Message(mem, sm, over) == Message(file, off, over) <==> HashedRodata(mem, sm) == HashedRodata(file, off)
  {
    hide HashedRodata, Text, Table, NormText, Linked, SameOutside, WellFormed, StraddlesEnd, Checked;
    GoodModuleFacts(file, off);
    OfflineEqualsLive(sm, Text(mem, sm), off, Text(file, off), image, syms, over, Table(file, off),
                      off.fipsTextStart - off.textStart, off.fipsTextEnd - off.textStart);
    SameFront(NormalizedFipsText(file, off, Table(file, off), over), HashedRodata(mem, sm), HashedRodata(file, off));
  }

  // ----- The offline tool -----

  datatype ToolResult = Refused | BadLength | HashFailed | AlreadyMatches | Mismatch | Patched | LeftMapping

  /** C string comparison; running off the end never compares equal. */
  predicate CStringEqual(a: seq<byte>, b: seq<byte>) {
    a != [] && b != [] && a[0] == b[0] && (a[0] == 0 || CStringEqual(a[1..], b[1..]))
  }

  lemma {:induction false} CStringEqualIsPrefix(a: seq<byte>, b: seq<byte>)
    requires IsCString(b, |b|)
    ensures CStringEqual(a, b) <==> b <= a
  {
    if |b| > 1 && a != [] {
      CStringEqualIsPrefix(a[1..], b[1..]);
      if b[1..] <= a[1..] && a[0] == b[0] {
        assert a == [a[0]] + a[1..] && b == [b[0]] + b[1..];
      }
    }
  }

  /** The fenceposts of a file of `size` bytes mapped at address `base`. */
  function MappedAt(sm: SegMap, base: nat, size: nat): SegMap {
    SegMap(base, base + size,
           sm.relocTabStart + base, sm.relocTabEnd + base, sm.relocTabLenStart + base, sm.relocTabLenEnd + base,
           sm.textStart + base, sm.textEnd + base, sm.fipsTextStart + base, sm.fipsTextEnd + base,
           sm.rodataStart + base, sm.rodataEnd + base, sm.fipsRodataStart + base, sm.fipsRodataEnd + base,
           sm.verifyCoreStart + base, sm.verifyCoreEnd + base,
           sm.dataStart + base, sm.dataEnd + base, sm.bssStart + base, sm.bssEnd + base, sm.textIsLive)
  }

  /** The fenceposts within the file itself. */
  function InFile(sm: SegMap, size: nat): SegMap { sm.(start := 0, end := size) }

  /** The tool refuses table fenceposts that do not lie in the file. */
  predicate Refuses(sm: SegMap, size: nat) {
    || sm.relocTabStart >= sm.relocTabEnd || sm.relocTabEnd >= size
    || sm.relocTabLenStart >= sm.relocTabLenEnd || sm.relocTabLenEnd >= size
  }

  lemma SliceMapped(below: seq<byte>, file: seq<byte>, from: nat, to: nat)
    requires from <= to <= |file|
    ensures (below + file)[from + |below|..to + |below|] == file[from..to]
  {
  }

  lemma {:induction false} TableMappedAt(below: seq<byte>, file: seq<byte>, start: nat, n: nat)
    requires start + ENTRY_SIZE * n <= |file|
    ensures ReadTable(below + file, start + |below|, n) == ReadTable(file, start, n)
  {
    hide ReadEntry;
    if n > 0 {
      TableMappedAt(below, file, start, n - 1);
      SliceMapped(below, file, start + ENTRY_SIZE * (n - 1), start + ENTRY_SIZE * n);
    }
  }

  lemma TableAt(below: seq<byte>, file: seq<byte>, sm: SegMap)
    requires TableMapped(file, sm)
    ensures var mem, at := below + file, MappedAt(sm, |below|, |file|);
      TableMapped(mem, at) && Table(mem, at) == Table(file, sm)
  {
    hide DecodeWord, ReadTable;
    SliceMapped(below, file, sm.relocTabLenStart, sm.relocTabLenStart + 4);
    TableMappedAt(below, file, sm.relocTabStart, |Table(file, sm)|);
  }

  lemma RodataMappedAt(sm: SegMap, base: nat, size: nat)
    ensures var at := MappedAt(sm, base, size);
      && RodataFirst(at) == RodataFirst(sm).(from := RodataFirst(sm).from + base)
      && RodataSecond(at) == RodataSecond(sm).(from := RodataSecond(sm).from + base)
      && (RodataWithin(at, base + size) <==> RodataWithin(sm, size))
  {
    hide Truncate32;
  }

  lemma RodataAt(below: seq<byte>, file: seq<byte>, sm: SegMap)
    requires RodataWithin(sm, |file|)
    ensures var mem, at := below + file, MappedAt(sm, |below|, |file|);
      RodataWithin(at, |mem|) && HashedRodata(mem, at) == HashedRodata(file, sm)
  {
    hide RodataFirst, RodataSecond, MappedAt;
    var first, second := RodataFirst(sm), RodataSecond(sm);
    RodataMappedAt(sm, |below|, |file|);
    SliceMapped(below, file, first.from, first.from + first.len);
    SliceMapped(below, file, second.from, second.from + second.len);
  }

  lemma ModuleMappedAt(below: seq<byte>, file: seq<byte>, sm: SegMap)
    requires GoodModule(file, sm)
    ensures var mem, at := below + file, MappedAt(sm, |below|, |file|);
      GoodModule(mem, at) && Table(mem, at) == Table(file, sm)
      && Text(mem, at) == Text(file, sm) && HashedRodata(mem, at) == HashedRodata(file, sm)
  {
    hide WellFormed, TableMapped, Table, HashedRodata;
    TableAt(below, file, sm);
    SliceMapped(below, file, sm.textStart, sm.textEnd);
    RodataAt(below, file, sm);
  }

  lemma OrderMapped(sm: SegMap, base: nat, size: nat)
    requires sm.start == 0 && sm.end == size && !Refuses(sm, size)
    ensures var at := MappedAt(sm, base, size);
      (OutOfOrder(at) <==> OutOfOrder(sm)) && (PastEnd(at) <==> PastEnd(sm)) && !BelowStart(at) && !BelowStart(sm)
  {
  }

  /** Moving all fenceposts by the same aligned distance changes no check. */
  lemma FencesMapped(sm: SegMap, base: nat, size: nat)
    requires !sm.textIsLive && sm.start == 0 && sm.end == size && !Refuses(sm, size) && base % 4 == 0
    ensures FenceError(MappedAt(sm, base, size)) == FenceError(sm)
    ensures forall n: nat :: SizeOk(MappedAt(sm, base, size), n) <==> SizeOk(sm, n)
  {
    hide OutOfOrder, PastEnd, BelowStart;
    OrderMapped(sm, base, size);
    assert (sm.relocTabLenStart + base) % 4 == sm.relocTabLenStart % 4;
  }

  lemma CanHashMapped(below: seq<byte>, file: seq<byte>, sm: SegMap)
    requires var mem, at := below + file, MappedAt(sm, |below|, |file|);
      GoodModule(file, sm) && GoodModule(mem, at) && Table(mem, at) == Table(file, sm)
    requires !sm.textIsLive && sm.start == 0 && sm.end == |file| && !Refuses(sm, |file|) && |below| % 4 == 0
    ensures CanHash(below + file, MappedAt(sm, |below|, |file|)) <==> CanHash(file, sm)
  {
    hide GoodModule, Table, StraddlesEnd, FenceError, SizeOk, Refuses, IsSentinel;
    FencesMapped(sm, |below|, |file|);
    GoodModuleFacts(file, sm);
    GoodModuleFacts(below + file, MappedAt(sm, |below|, |file|));
  }

  lemma OfflineAddressesIrrelevant(sm: SegMap, sm': SegMap, over: OversizeShift, tab: seq<Entry>, text: seq<byte>,
                                   lo: nat, hi: nat)
    requires WellFormed(tab) && lo <= hi <= |text| && !StraddlesEnd(tab, lo, hi)
    requires !sm.textIsLive && !sm'.textIsLive
    ensures NormText(sm, over, tab, text, lo, hi) == NormText(sm', over, tab, text, lo, hi)
  {
    hide Label, Load, NormText;
    NormTextAgree(sm, text, sm', text, over, tab, lo, hi);
  }

  lemma NormalizedIs(mem: seq<byte>, sm: SegMap, over: OversizeShift)
    requires GoodModule(mem, sm) && CanHash(mem, sm)
    ensures sm.textEnd <= |mem| && Hashable(sm, Table(mem, sm)) && WellFormed(Table(mem, sm))
    ensures var lo, hi := sm.fipsTextStart - sm.textStart, sm.fipsTextEnd - sm.textStart;
      && 0 <= lo <= hi <= |Text(mem, sm)| && !StraddlesEnd(Table(mem, sm), lo, hi)
      && NormalizedFipsText(mem, sm, Table(mem, sm), over)
           == NormText(sm, over, Table(mem, sm), Text(mem, sm), lo, hi)
  {
    hide WellFormed, Table, NormText, StraddlesEnd, RodataWithin;
  }

  lemma TextFencesMapped(sm: SegMap, base: nat, size: nat)
    ensures var at := MappedAt(sm, base, size);
      && at.fipsTextStart - at.textStart == sm.fipsTextStart - sm.textStart
      && at.fipsTextEnd - at.textStart == sm.fipsTextEnd - sm.textStart && at.textIsLive == sm.textIsLive
  {
  }

  lemma TextMessageMapped(below: seq<byte>, file: seq<byte>, sm: SegMap, over: OversizeShift)
    requires GoodModule(file, sm) && CanHash(file, sm) && !sm.textIsLive
    requires var mem, at := below + file, MappedAt(sm, |below|, |file|);
      && GoodModule(mem, at) && CanHash(mem, at)
      && Table(mem, at) == Table(file, sm) && Text(mem, at) == Text(file, sm)
    ensures NormalizedFipsText(below + file, MappedAt(sm, |below|, |file|), Table(file, sm), over)
         == NormalizedFipsText(file, sm, Table(file, sm), over)
  {
    hide *;
    GoodModuleFacts(file, sm);
    NormalizedIs(file, sm, over);
    NormalizedIs(below + file, MappedAt(sm, |below|, |file|), over);
    TextFencesMapped(sm, |below|, |file|);
    OfflineAddressesIrrelevant(sm, MappedAt(sm, |below|, |file|), over, Table(file, sm), Text(file, sm),
                               sm.fipsTextStart - sm.textStart, sm.fipsTextEnd - sm.textStart);
  }

  lemma MessageParts(mem: seq<byte>, sm: SegMap, over: OversizeShift)
    requires GoodModule(mem, sm) && CanHash(mem, sm)
    ensures sm.textEnd <= |mem| && Hashable(sm, Table(mem, sm)) && RodataWithin(sm, |mem|)
    ensures Message(mem, sm, over) == NormalizedFipsText(mem, sm, Table(mem, sm), over) + HashedRodata(mem, sm)
  {
    hide Table, HashedRodata, NormalizedFipsText, WellFormed, Hashable;
  }

  /** Offline, the page-aligned address the file is mapped at reaches neither the checks nor the HMAC. */
  lemma MappingAddressIrrelevant(below: seq<byte>, file: seq<byte>, sm: SegMap, over: OversizeShift)
    requires GoodModule(file, sm) && !sm.textIsLive && sm.start == 0 && sm.end == |file|
    requires !Refuses(sm, |file|) && |below| % 4 == 0
    ensures var mem, at := below + file, MappedAt(sm, |below|, |file|);
      GoodModule(mem, at) && (CanHash(mem, at) <==> CanHash(file, sm))
      && (CanHash(file, sm) ==> Message(mem, at, over) == Message(file, sm, over))
  {
    hide *;
    ModuleMappedAt(below, file, sm);
    CanHashMapped(below, file, sm);
    if CanHash(file, sm) {
      GoodModuleFacts(file, sm);
      TextMessageMapped(below, file, sm, over);
      MessageParts(file, sm, over);
      MessageParts(below + file, MappedAt(sm, |below|, |file|), over);
    }
  }

  lemma DigestFits(file: seq<byte>, sm: SegMap, digest: DigestFn, n: nat, m: seq<byte>)
    requires Checked(file, sm) && sm.end == |file| && !Refuses(sm, |file|)
    requires DigestStrings(digest, n) && sm.verifyCoreEnd == sm.verifyCoreStart + n
    ensures |digest(m)| == n && sm.verifyCoreStart + n <= |file| && IsCString(digest(m), n)
  {
    hide Table, TableMapped, TableOk;
  }

  /** One run of the tool on a module file. */
  ghost function RunOnce(file: seq<byte>, sm: SegMap, over: OversizeShift, digest: DigestFn, n: nat, inplace: bool)
      : (ToolResult, seq<byte>)
    requires GoodModule(file, sm) && DigestStrings(digest, n) && sm.start == 0 && sm.end == |file|
  {
    if Refuses(sm, |file|) then (Refused, file)
    else if sm.verifyCoreEnd - sm.verifyCoreStart != n then (BadLength, file)
    else if !CanHash(file, sm) then (HashFailed, file)
    else
      var d := digest(Message(file, sm, over));
      DigestFits(file, sm, digest, n, Message(file, sm, over));
      if CStringEqual(file[sm.verifyCoreStart..], d) then (AlreadyMatches, file)
      else if inplace then (Patched, Overwrite(file, sm.verifyCoreStart, d))
      else (Mismatch, file)
  }

  /** Nothing but the stored digest is ever written, and only by a run in place that says so. */
  ghost predicate OnlyDigestWritten(file: seq<byte>, file': seq<byte>, sm: SegMap, n: nat, inplace: bool,
                                    result: ToolResult) {
    if result == Patched then
      inplace && exists d: seq<byte> ::
        IsCString(d, n) && sm.verifyCoreStart + n <= |file| && file' == Overwrite(file, sm.verifyCoreStart, d)
    else file' == file
  }

  lemma InFileIs(fences: SegMap, size: nat)
    ensures var sm := InFile(fences, size);
      && sm.start == 0 && sm.end == size && sm.textIsLive == fences.textIsLive
      && (Refuses(sm, size) <==> Refuses(fences, size))
    ensures forall file: seq<byte>, file': seq<byte>, n: nat, inplace: bool, result: ToolResult ::
      OnlyDigestWritten(file, file', InFile(fences, size), n, inplace, result) ==
      OnlyDigestWritten(file, file', fences, n, inplace, result)
  {
  }

  /** The specification of a run, by its cases. */
  lemma ToolSpec(file: seq<byte>, sm: SegMap, over: OversizeShift, digest: DigestFn, n: nat, inplace: bool)
    requires DigestStrings(digest, n) && sm.start == 0 && sm.end == |file|
    ensures forall result: ToolResult :: result != Patched ==> OnlyDigestWritten(file, file, sm, n, inplace, result)
    ensures GoodModule(file, sm) ==>
      var (result, file') := RunOnce(file, sm, over, digest, n, inplace);
      if Refuses(sm, |file|) then result == Refused && file' == file
      else if sm.verifyCoreEnd - sm.verifyCoreStart != n then result == BadLength && file' == file
      else if !CanHash(file, sm) then result == HashFailed && file' == file
      else
        var d := digest(Message(file, sm, over));
        |d| == n && sm.verifyCoreStart + n <= |file|
        && if CStringEqual(file[sm.verifyCoreStart..], d) then result == AlreadyMatches && file' == file
           else if inplace then result == Patched && file' == Overwrite(file, sm.verifyCoreStart, d)
           else result == Mismatch && file' == file
  {
    hide GoodModule, CanHash, Message, DigestStrings, CStringEqual, IsCString, Refuses;
    if GoodModule(file, sm) && !Refuses(sm, |file|) && sm.verifyCoreEnd - sm.verifyCoreStart == n && CanHash(file, sm) {
      CanHashMeans(file, sm);
      DigestFits(file, sm, digest, n, Message(file, sm, over));
    }
  }

  lemma RefusedIs(sm: SegMap, size: nat)
    ensures Refuses(sm, size) <==>
      || sm.relocTabStart >= sm.relocTabEnd || sm.relocTabEnd >= size
      || sm.relocTabLenStart >= sm.relocTabLenEnd || sm.relocTabLenEnd >= size
  {
  }

  lemma FileMapped(below: seq<byte>, file: seq<byte>, sm: SegMap)
    requires !Refuses(sm, |file|)
    ensures Mapped(below + file, MappedAt(sm, |below|, |file|))
  {
    hide TableMapped;
  }

  lemma CStringLength(s: seq<byte>, n: nat)
    requires IsCString(s, n)
    ensures |s| == n
  {
  }

  /** A digest that was computed fits where the old one is stored. */
  lemma ResultFits(below: seq<byte>, file: seq<byte>, sm: SegMap, digest: DigestFn, n: nat, r: HashResult)
    requires DigestStrings(digest, n) && !Refuses(sm, |file|)
    requires sm.verifyCoreEnd - sm.verifyCoreStart == n && r.Digest?
    requires var mem, at := below + file, MappedAt(sm, |below|, |file|);
      && Checked(mem, at) && RodataWithin(at, |mem|) && at.fipsTextStart < at.fipsTextEnd
      && exists text: seq<byte> ::
           |text| == at.fipsTextEnd - at.fipsTextStart && r == Digest(digest(text + HashedRodata(mem, at)))
    ensures |r.text| == n && sm.verifyCoreStart + n <= |file| && IsCString(r.text, n)
  {
    hide Table, TableMapped, TableOk, HashedRodata, IsCString;
    var mem, at := below + file, MappedAt(sm, |below|, |file|);
    var text: seq<byte> :|
      |text| == at.fipsTextEnd - at.fipsTextStart && r == Digest(digest(text + HashedRodata(mem, at)));
    assert IsCString(digest(text + HashedRodata(mem, at)), n);
    CStringLength(r.text, n);
  }

  lemma WrittenIs(file: seq<byte>, file': seq<byte>, sm: SegMap, n: nat, d: seq<byte>)
    requires IsCString(d, n) && |d| == n && sm.verifyCoreStart + n <= |file|
    requires file' == Overwrite(file, sm.verifyCoreStart, d)
    ensures OnlyDigestWritten(file, file', sm, n, true, Patched)
  {
  }

  /** The tool's run, wherever the file is mapped and whatever the chunk size. Nothing is promised once it reads outside
      the mapped file. */
  method RunTool(file: array<byte>, base: nat, fences: SegMap, over: OversizeShift, bufsiz: nat,
                 digest: DigestFn, n: nat, inplace: bool, counts: RelocCounts) returns (result: ToolResult)
    requires !fences.textIsLive && 8 <= bufsiz && base % 4 == 0
    requires DigestStrings(digest, n)
    modifies file, counts
    ensures result == LeftMapping ==> !RodataWithin(InFile(fences, file.Length), file.Length)
    ensures result != LeftMapping ==>
      OnlyDigestWritten(old(file[..]), file[..], fences, n, inplace, result)
    ensures result == Refused <==> Refuses(fences, file.Length)
    ensures GoodModule(old(file[..]), InFile(fences, file.Length)) ==>
      (result, file[..]) == RunOnce(old(file[..]), InFile(fences, file.Length), over, digest, n, inplace)
  {
    hide *;
    var sm := InFile(fences, file.Length);
    InFileIs(fences, file.Length);
    ghost var was := file[..];
    ToolSpec(was, sm, over, digest, n, inplace);
    if sm.relocTabStart >= sm.relocTabEnd || sm.relocTabEnd >= file.Length
      || sm.relocTabLenStart >= sm.relocTabLenEnd || sm.relocTabLenEnd >= file.Length
    {
      RefusedIs(sm, file.Length);
      return Refused;
    }
    RefusedIs(sm, file.Length);
    if sm.verifyCoreEnd - sm.verifyCoreStart != n {
      return BadLength;
    }
    var below: seq<byte> := seq(base, _ => 0);
    var mem, at := below + file[..], MappedAt(sm, base, file.Length);
    FileMapped(below, file[..], sm);
    if GoodModule(was, sm) {
      MappingAddressIrrelevant(below, file[..], sm, over);
    }
    var r := GenerateHash(mem, at, over, bufsiz, digest, counts);
    if r.Error? {
      return HashFailed;
    }
    if r == Overread {
      RodataMappedAt(sm, base, file.Length);
      assert |mem| == base + file.Length;
      CanHashMeans(was, sm);
      return LeftMapping;
    }
    ResultFits(below, file[..], sm, digest, n, r);
    if CStringEqual(file[sm.verifyCoreStart..], r.text) {
      return AlreadyMatches;
    }
    if inplace {
      Put(file, sm.verifyCoreStart, r.text);
      WrittenIs(was, file[..], sm, n, r.text);
      return Patched;
    }
    return Mismatch;
  }

  lemma ApartLength(sm: SegMap, tabLen: nat, n: nat)
    requires DigestApart(sm, tabLen, n)
    ensures sm.verifyCoreEnd == sm.verifyCoreStart + n
  {
  }

  lemma OverwriteOutside(file: seq<byte>, sm: SegMap, d: seq<byte>, n: nat)
    requires |d| == n && sm.verifyCoreStart + n <= |file| && sm.verifyCoreEnd == sm.verifyCoreStart + n
    ensures var file' := Overwrite(file, sm.verifyCoreStart, d);
      SameOutsideDigest(file, file', sm) && |file'| == |file| && d <= file'[sm.verifyCoreStart..]
  {
  }

  /** A run in place on a module that passes and can be hashed leaves its digest stored, and every further run finds it
      there and changes nothing. */
  lemma PatchIsFixedPoint(file: seq<byte>, sm: SegMap, over: OversizeShift, digest: DigestFn, n: nat, again: bool)
    requires GoodModule(file, sm) && DigestStrings(digest, n) && sm.start == 0 && sm.end == |file|
    requires DigestApart(sm, |Table(file, sm)|, n)
    requires !Refuses(sm, |file|) && CanHash(file, sm)
    ensures var (result, file') := RunOnce(file, sm, over, digest, n, true);
      && result in {AlreadyMatches, Patched} && GoodModule(file', sm) && |file'| == |file|
      && RunOnce(file', sm, over, digest, n, again) == (AlreadyMatches, file')
  {
    hide *;
    CanHashMeans(file, sm);
    ApartLength(sm, |Table(file, sm)|, n);
    var file' := RunOnce(file, sm, over, digest, n, true).1;
    ToolSpec(file, sm, over, digest, n, true);
    var m := Message(file, sm, over);
    var d := digest(m);
    DigestFits(file, sm, digest, n, m);
    if !CStringEqual(file[sm.verifyCoreStart..], d) {
      OverwriteOutside(file, sm, d, n);
      SameModule(file, file', sm, n);
      MessageIgnoresDigest(file, file', sm, over, n);
      ToolSpec(file', sm, over, digest, n, again);
      CStringEqualIsPrefix(file'[sm.verifyCoreStart..], d);
    } else {
      ToolSpec(file, sm, over, digest, n, again);
    }
  }

  lemma PrefixOfRest(file: seq<byte>, at: nat, n: nat, d: seq<byte>)
    requires at + n <= |file| && |d| == n
    ensures d <= file[at..] <==> file[at..at + n] == d
  {
    assert file[at..][..n] == file[at..at + n];
  }

  /** A run reports a match if and only if the module passes and the stored bytes are the digest string. */
  lemma MatchMeansStored(file: seq<byte>, sm: SegMap, over: OversizeShift, digest: DigestFn, n: nat, inplace: bool)
    requires GoodModule(file, sm) && DigestStrings(digest, n) && sm.start == 0 && sm.end == |file|
    ensures RunOnce(file, sm, over, digest, n, inplace).0 == AlreadyMatches
       <==> !Refuses(sm, |file|) && sm.verifyCoreEnd - sm.verifyCoreStart == n && CanHash(file, sm)
            && sm.verifyCoreStart + n <= |file|
            && file[sm.verifyCoreStart..sm.verifyCoreStart + n] == digest(Message(file, sm, over))
  {
    hide *;
    ToolSpec(file, sm, over, digest, n, inplace);
    if !Refuses(sm, |file|) && sm.verifyCoreEnd - sm.verifyCoreStart == n && CanHash(file, sm) {
      var d := digest(Message(file, sm, over));
      CanHashMeans(file, sm);
      DigestFits(file, sm, digest, n, Message(file, sm, over));
      CStringEqualIsPrefix(file[sm.verifyCoreStart..], d);
      PrefixOfRest(file, sm.verifyCoreStart, n, d);
    }
  }
}
