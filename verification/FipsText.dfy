/** The chunk loop that feeds the normalised FIPS text to the HMAC. */
module FipsText {
  import opened Words
  import opened RelocTable
  import opened RelocNormalize
  import opened RelocChunks

  /** The HMAC context: it remembers the bytes it was fed. */
  class HmacCtx {
    var message: seq<byte>

    constructor ()
      ensures message == []
    {
      message := [];
    }

    method Update(data: seq<byte>)
      modifies this
      ensures message == old(message) + data
    {
      message := message + data;
    }
  }

  /** The text segment, and the FIPS range as offsets into it. */
  function Text(mem: seq<byte>, sm: SegMap): seq<byte>
    requires sm.textStart <= sm.textEnd <= |mem|
  {
    mem[sm.textStart..sm.textEnd]
  }

  lemma SubText(mem: seq<byte>, sm: SegMap, p: nat, len: nat)
    requires sm.textStart <= p && p + len <= sm.textEnd <= |mem|
    ensures mem[p..p + len] == Text(mem, sm)[p - sm.textStart..p - sm.textStart + len]
  {
    var sub := Text(mem, sm)[p - sm.textStart..p - sm.textStart + len];
    forall k | 0 <= k < len ensures mem[p..p + len][k] == sub[k] {
      assert sub[k] == Text(mem, sm)[p - sm.textStart + k];
    }
  }

  /** The walk of a call resumed at index `i`. */
  ghost function CallFrom(sm: SegMap, over: OversizeShift, tab: seq<Entry>, text: seq<byte>,
                          pos: nat, len: nat, i: nat, counts: Counts): WalkResult
    requires pos + len <= |text| && i <= |tab| && tab != []
  {
    Walk(sm, over, tab, pos, text[pos..pos + len], i, if i > 0 then i - 1 else 0, counts)
  }

  /** The walk over a slice of memory is the walk over the same slice of the text. */
  lemma CallIs(mem: seq<byte>, sm: SegMap, over: OversizeShift, tab: seq<Entry>, p: nat, len: nat, i: nat,
               counts: Counts)
    requires sm.textStart <= p && p + len <= sm.textEnd <= |mem| && i < |tab|
    ensures Walk(sm, over, tab, p - sm.textStart, mem[p..p + len], i, if i > 0 then i - 1 else 0, counts)
         == CallFrom(sm, over, tab, Text(mem, sm), p - sm.textStart, len, i, counts)
  {
    hide Walk;
    SubText(mem, sm, p, len);
  }

  /** Relocations of one destination segment with offset in [lo, hi). */
  ghost function RelocsTo(tab: seq<Entry>, lo: nat, hi: nat, seg: nat): set<nat> {
    set k: nat | k < |tab| - 1 && IsReloc(tab[k]) && lo <= tab[k].offset < hi && Effective(tab[k].destSegment) == seg
  }

  /** Adds one to the counter of its destination segment for every relocation in [lo, hi). */
  ghost predicate CountedOnce(before: Counts, after: Counts, tab: seq<Entry>, lo: nat, hi: nat) {
    && after.text == before.text + |RelocsTo(tab, lo, hi, SEG_TEXT)|
    && after.rodata == before.rodata + |RelocsTo(tab, lo, hi, SEG_RODATA)|
    && after.rwdata == before.rwdata + |RelocsTo(tab, lo, hi, SEG_RWDATA)|
    && after.bss == before.bss + |RelocsTo(tab, lo, hi, SEG_BSS)|
    && after.other == before.other + |RelocsTo(tab, lo, hi, SEG_OTHER)|
  }

  /** Indices in [a, b) of relocations of one destination segment. */
  ghost function IndicesTo(tab: seq<Entry>, a: nat, b: nat, seg: nat): set<nat>
    requires b <= |tab|
  {
    set k: nat | a <= k < b && IsReloc(tab[k]) && Effective(tab[k].destSegment) == seg
  }

  lemma IndicesFrom(tab: seq<Entry>, a: nat, b: nat, seg: nat)
    requires a < b <= |tab|
    ensures var rest := IndicesTo(tab, a + 1, b, seg);
      && a !in rest
      && IndicesTo(tab, a, b, seg)
           == if IsReloc(tab[a]) && Effective(tab[a].destSegment) == seg then {a} + rest else rest
  {
    hide Effective, IsReloc;
  }

  lemma {:induction false} TallyCounts(tab: seq<Entry>, a: nat, b: nat, seg: nat)
    requires b <= |tab|
    ensures TallyOf(tab, a, b, seg) == |IndicesTo(tab, a, b, seg)|
    decreases b - a
  {
    hide Effective, IsReloc;
    if a < b {
      TallyCounts(tab, a + 1, b, seg);
      IndicesFrom(tab, a, b, seg);
      hide IndicesTo;
    } else {
      assert IndicesTo(tab, a, b, seg) == {};
    }
  }

  /** The indices the loop passes are exactly the relocations of the hashed range. */
  lemma IndicesAreRelocs(tab: seq<Entry>, lo: nat, hi: nat, b: nat, seg: nat)
    requires WellFormed(tab) && LowerBound(tab, lo) <= b && CursorAt(tab, lo, b, hi)
    ensures IndicesTo(tab, LowerBound(tab, lo), b, seg) == RelocsTo(tab, lo, hi, seg)
  {
    var a := LowerBound(tab, lo);
    forall k: nat | k < |tab| - 1 && IsReloc(tab[k])
      ensures a <= k < b <==> lo <= tab[k].offset < hi
    {
      if a <= k < b {
        assert tab[a].offset <= tab[k].offset;
        assert FieldEnd(tab[k]) <= hi && KnownType(tab[k].relocType);
      }
    }
  }

  lemma TallyIsCountedOnce(tab: seq<Entry>, lo: nat, hi: nat, b: nat, before: Counts)
    requires WellFormed(tab) && LowerBound(tab, lo) <= b && CursorAt(tab, lo, b, hi)
    ensures CountedOnce(before, before.Add(Tally(tab, LowerBound(tab, lo), b)), tab, lo, hi)
  {
    var a := LowerBound(tab, lo);
    forall seg: nat ensures TallyOf(tab, a, b, seg) == |RelocsTo(tab, lo, hi, seg)|
    {
      TallyCounts(tab, a, b, seg);
      IndicesAreRelocs(tab, lo, hi, b, seg);
    }
  }

  lemma RelocsPartition(tab: seq<Entry>, lo: nat, hi: nat)
    ensures var t, r := RelocsTo(tab, lo, hi, SEG_TEXT), RelocsTo(tab, lo, hi, SEG_RODATA);
      var w, b := RelocsTo(tab, lo, hi, SEG_RWDATA), RelocsTo(tab, lo, hi, SEG_BSS);
      var o := RelocsTo(tab, lo, hi, SEG_OTHER);
      && (set k: nat | k < |tab| - 1 && IsReloc(tab[k]) && lo <= tab[k].offset < hi) == t + r + w + b + o
      && t !! r && t + r !! w && t + r + w !! b && t + r + w + b !! o
  {
  }

  lemma SizeOfUnion(x: set<nat>, y: set<nat>)
    requires x !! y
    ensures |x + y| == |x| + |y|
  {
  }

  /** The five counters together count every relocation of the range, once. */
  lemma CountersSumToRelocs(before: Counts, after: Counts, tab: seq<Entry>, lo: nat, hi: nat)
    requires CountedOnce(before, after, tab, lo, hi)
    ensures after.Total() - before.Total()
         == |set k: nat | k < |tab| - 1 && IsReloc(tab[k]) && lo <= tab[k].offset < hi|
  {
    var t, r := RelocsTo(tab, lo, hi, SEG_TEXT), RelocsTo(tab, lo, hi, SEG_RODATA);
    var w, b := RelocsTo(tab, lo, hi, SEG_RWDATA), RelocsTo(tab, lo, hi, SEG_BSS);
    var o := RelocsTo(tab, lo, hi, SEG_OTHER);
    RelocsPartition(tab, lo, hi);
    SizeOfUnion(t, r);
    SizeOfUnion(t + r, w);
    SizeOfUnion(t + r + w, b);
    SizeOfUnion(t + r + w + b, o);
  }

  /** Some relocation of [lo, hi) runs past `hi`. */
  ghost predicate StraddlesEnd(tab: seq<Entry>, lo: nat, hi: nat) {
    exists k :: 0 <= k < |tab| - 1 && IsReloc(tab[k]) && lo <= tab[k].offset < hi < FieldEnd(tab[k])
  }

  /** Exactly when the FIPS text of a well-formed table can be hashed. */
  ghost predicate Hashable(sm: SegMap, tab: seq<Entry>) {
    && sm.textStart <= sm.fipsTextStart < sm.fipsTextEnd <= sm.textEnd
    && var lo, hi := sm.fipsTextStart - sm.textStart, sm.fipsTextEnd - sm.textStart;
    && |tab| >= 2 && lo < tab[|tab| - 1].offset
    && !StraddlesEnd(tab, lo, hi)
  }

  /** The normalised FIPS text as the HMAC sees it. */
  ghost function NormalizedFipsText(mem: seq<byte>, sm: SegMap, tab: seq<Entry>, over: OversizeShift): seq<byte>
    requires sm.textEnd <= |mem| && Hashable(sm, tab)
  {
    NormText(sm, over, tab, Text(mem, sm), sm.fipsTextStart - sm.textStart, sm.fipsTextEnd - sm.textStart)
  }

  /** A well-formed table, and a text its 32-bit offsets can reach. */
  ghost predicate Sound(sm: SegMap, tab: seq<Entry>) {
    WellFormed(tab) && sm.textEnd - sm.textStart < 0x1_0000_0000
  }

  /** Exactly the normalised FIPS text was added to the message, and every relocation in it counted once. */
  ghost predicate FedOnce(mem: seq<byte>, sm: SegMap, tab: seq<Entry>, over: OversizeShift,
                          said: seq<byte>, message: seq<byte>, counted: Counts, counts: Counts)
    requires sm.textEnd <= |mem| && Hashable(sm, tab)
  {
    && message == said + NormalizedFipsText(mem, sm, tab, over)
    && CountedOnce(counted, counts, tab, sm.fipsTextStart - sm.textStart, sm.fipsTextEnd - sm.textStart)
  }

  /** The state of the loop once it has passed text offset `pos`. */
  ghost predicate LoopAt(sm: SegMap, over: OversizeShift, tab: seq<Entry>, text: seq<byte>, lo: nat, pos: nat, i: nat,
                         said: seq<byte>, message: seq<byte>, counted: Counts, counts: Counts) {
    && lo <= pos <= |text|
    && |tab| >= 2 && lo < tab[|tab| - 1].offset
    && LowerBound(tab, lo) <= i
    && CursorAt(tab, lo, i, pos)
    && message == said + NormText(sm, over, tab, text, lo, pos)
    && counts == counted.Add(Tally(tab, LowerBound(tab, lo), i))
  }

  /** Between rounds: nothing done yet, or the loop stands at address `p`. */
  ghost predicate Resumable(mem: seq<byte>, sm: SegMap, tab: seq<Entry>, over: OversizeShift, p: nat, index: int,
                            said: seq<byte>, message: seq<byte>, counted: Counts, counts: Counts)
    requires sm.textStart <= sm.textEnd <= |mem| && sm.fipsTextStart <= p
  {
    if p == sm.fipsTextStart then index == -1 && message == said && counts == counted
    else
      && 0 <= index < |tab| && sm.textStart <= sm.fipsTextStart
      && LoopAt(sm, over, tab, Text(mem, sm), sm.fipsTextStart - sm.textStart, p - sm.textStart, index,
                said, message, counted, counts)
  }

  lemma NothingAhead(sm: SegMap, tab: seq<Entry>, pos: nat)
    requires SearchFails(sm, tab, pos) && pos < sm.textEnd - sm.textStart < 0x1_0000_0000
    ensures |tab| <= 1 || pos >= tab[|tab| - 1].offset
  {
  }

  lemma NotSearchFailed(sm: SegMap, tab: seq<Entry>, pos: nat)
    ensures !SearchFails(sm, tab, pos) ==> |tab| >= 2 && pos < tab[|tab| - 1].offset
  {
  }

  lemma LoopStarts(sm: SegMap, over: OversizeShift, tab: seq<Entry>, text: seq<byte>, lo: nat, i: nat,
                   said: seq<byte>, counted: Counts)
    requires WellFormed(tab) && Crossing(tab, lo, i) && |tab| >= 2 && lo < tab[|tab| - 1].offset && lo <= |text|
    ensures i < |tab| && LoopAt(sm, over, tab, text, lo, lo, i, said, said, counted, counted)
  {
    assert i == LowerBound(tab, lo);
    ZeroAdd(counted);
    assert said + [] == said;
  }

  lemma LoopParts(sm: SegMap, over: OversizeShift, tab: seq<Entry>, text: seq<byte>, lo: nat, pos: nat, i: nat,
                  said: seq<byte>, message: seq<byte>, counted: Counts, counts: Counts)
    requires LoopAt(sm, over, tab, text, lo, pos, i, said, message, counted, counts)
    ensures lo <= pos <= |text| && |tab| >= 2 && lo < tab[|tab| - 1].offset && LowerBound(tab, lo) <= i < |tab|
    ensures CursorAt(tab, lo, i, pos)
    ensures message == said + NormText(sm, over, tab, text, lo, pos)
    ensures counts == counted.Add(Tally(tab, LowerBound(tab, lo), i))
  {
    hide NormText, Tally, LowerBound, Counts.Add, FinishedBy, AheadOf;
  }

  lemma CallDone(sm: SegMap, over: OversizeShift, tab: seq<Entry>, text: seq<byte>, lo: nat, pos: nat, len: nat, i: nat,
                 counts: Counts)
    requires WellFormed(tab) && CursorAt(tab, lo, i, pos) && i < |tab|
    requires lo <= pos && pos + len <= |text| < 0x1_0000_0000
    ensures ChunkDone(sm, over, tab, text, lo, pos, len, i, counts,
                      CallFrom(sm, over, tab, text, pos, len, i, counts))
  {
    hide Walk, ChunkDone, WellFormed, CursorAt;
    ChunkFromCursor(sm, over, tab, text, lo, pos, len, i, counts);
  }

  lemma DoneParts(sm: SegMap, over: OversizeShift, tab: seq<Entry>, text: seq<byte>, lo: nat, pos: nat, len: nat,
                  i: nat,
                  counts: Counts, w: WalkResult)
    requires pos + len <= |text| && ChunkDone(sm, over, tab, text, lo, pos, len, i, counts, w)
    ensures w.Walked? && w.len <= len && |w.out| == len && i <= w.index < |tab|
    ensures CursorAt(tab, lo, w.index, pos + w.len)
    ensures w.counts == counts.Add(Tally(tab, i, w.index))
    ensures forall q :: 0 <= q < w.len ==> w.out[..w.len][q] == NormByte(sm, over, tab, text, lo, pos + q)
  {
    hide NormByte, Tally, Counts.Add, Straddles, FinishedBy, AheadOf;
  }

  lemma Reassociate(a: seq<byte>, b: seq<byte>, c: seq<byte>)
    ensures (a + b) + c == a + (b + c)
  {
  }

  lemma MessageAdvances(sm: SegMap, over: OversizeShift, tab: seq<Entry>, text: seq<byte>, lo: nat, pos: nat, len: nat,
                        i: nat, counts: Counts, said: seq<byte>, message: seq<byte>, w: WalkResult)
    requires lo <= pos && pos + len <= |text| && ChunkDone(sm, over, tab, text, lo, pos, len, i, counts, w)
    requires message == said + NormText(sm, over, tab, text, lo, pos)
    ensures w.Walked? && w.len <= |w.out| && pos + w.len <= |text|
    ensures message + w.out[..w.len] == said + NormText(sm, over, tab, text, lo, pos + w.len)
  {
    hide *;
    DoneParts(sm, over, tab, text, lo, pos, len, i, counts, w);
    NormTextAppend(sm, over, tab, text, lo, pos, w.out[..w.len]);
    Reassociate(said, NormText(sm, over, tab, text, lo, pos), w.out[..w.len]);
  }

  lemma CountsAdvance(sm: SegMap, over: OversizeShift, tab: seq<Entry>, text: seq<byte>, lo: nat, pos: nat, len: nat,
                      i: nat, counts: Counts, counted: Counts, w: WalkResult)
    requires pos + len <= |text| && ChunkDone(sm, over, tab, text, lo, pos, len, i, counts, w)
    requires LowerBound(tab, lo) <= i < |tab| && counts == counted.Add(Tally(tab, LowerBound(tab, lo), i))
    ensures w.Walked? && w.index < |tab| && w.counts == counted.Add(Tally(tab, LowerBound(tab, lo), w.index))
  {
    hide *;
    DoneParts(sm, over, tab, text, lo, pos, len, i, counts, w);
    var a := LowerBound(tab, lo);
    TallySplit(tab, a, i, w.index);
    AddAssociative(counted, Tally(tab, a, i), Tally(tab, i, w.index));
  }

  lemma LoopIs(sm: SegMap, over: OversizeShift, tab: seq<Entry>, text: seq<byte>, lo: nat, pos: nat, i: nat,
               said: seq<byte>, message: seq<byte>, counted: Counts, counts: Counts)
    requires lo <= pos <= |text| && |tab| >= 2 && lo < tab[|tab| - 1].offset && LowerBound(tab, lo) <= i < |tab|
    requires CursorAt(tab, lo, i, pos)
    requires message == said + NormText(sm, over, tab, text, lo, pos)
    requires counts == counted.Add(Tally(tab, LowerBound(tab, lo), i))
    ensures LoopAt(sm, over, tab, text, lo, pos, i, said, message, counted, counts)
  {
    hide NormText, Tally, LowerBound, Counts.Add, CursorAt;
  }

  lemma AfterCall(sm: SegMap, over: OversizeShift, tab: seq<Entry>, text: seq<byte>, lo: nat, pos: nat, len: nat,
                  i: nat,
                  said: seq<byte>, message: seq<byte>, counted: Counts, counts: Counts)
    requires WellFormed(tab) && pos + len <= |text| < 0x1_0000_0000
    requires LoopAt(sm, over, tab, text, lo, pos, i, said, message, counted, counts)
    ensures i < |tab|
    ensures var w := CallFrom(sm, over, tab, text, pos, len, i, counts);
      w.Walked? && w.len <= len && |w.out| == len && w.index < |tab|
      && LoopAt(sm, over, tab, text, lo, pos + w.len, w.index, said, message + w.out[..w.len], counted, w.counts)
  {
    hide *;
    LoopParts(sm, over, tab, text, lo, pos, i, said, message, counted, counts);
    var w := CallFrom(sm, over, tab, text, pos, len, i, counts);
    CallDone(sm, over, tab, text, lo, pos, len, i, counts);
    DoneParts(sm, over, tab, text, lo, pos, len, i, counts, w);
    MessageAdvances(sm, over, tab, text, lo, pos, len, i, counts, said, message, w);
    CountsAdvance(sm, over, tab, text, lo, pos, len, i, counts, counted, w);
    LoopIs(sm, over, tab, text, lo, pos + w.len, w.index, said, message + w.out[..w.len], counted, w.counts);
  }

  /** A call without progress has met a relocation running past the end of the hashed text. */
  lemma StuckAtEnd(sm: SegMap, over: OversizeShift, tab: seq<Entry>, text: seq<byte>, lo: nat, pos: nat, len: nat,
                   i: nat,
                   said: seq<byte>, message: seq<byte>, counted: Counts, counts: Counts, bufsiz: nat, hi: nat)
    requires WellFormed(tab) && pos < hi <= |text| < 0x1_0000_0000
    requires LoopAt(sm, over, tab, text, lo, pos, i, said, message, counted, counts)
    requires i < |tab|
    requires 8 <= bufsiz && len == (if bufsiz < hi - pos then bufsiz else hi - pos)
    requires CallFrom(sm, over, tab, text, pos, len, i, counts).Walked?
    requires CallFrom(sm, over, tab, text, pos, len, i, counts).len == 0
    ensures StraddlesEnd(tab, lo, hi)
  {
    hide Walk, NormByte;
    ChunkFromCursor(sm, over, tab, text, lo, pos, len, i, counts);
    var k := CallFrom(sm, over, tab, text, pos, len, i, counts).index;
    assert Straddles(tab, k, pos, pos + len);
  }

  /** One round of the loop: either the FIPS text cannot be hashed, or the loop advances. */
  lemma Round(mem: seq<byte>, sm: SegMap, tab: seq<Entry>, over: OversizeShift, p: nat, len: nat, bufsiz: nat,
              index: int, counts: Counts, start: int, progress: int, out: seq<byte>, index1: int, counts1: Counts,
              said: seq<byte>, message: seq<byte>, counted: Counts)
    requires sm.textStart < sm.textEnd <= |mem| && Sound(sm, tab)
    requires sm.fipsTextStart <= p < sm.fipsTextEnd && 8 <= bufsiz && |out| == len
    requires var rest := Truncate32(sm.fipsTextEnd - p); len == if bufsiz < rest then bufsiz else rest
    requires Resumable(mem, sm, tab, over, p, index, said, message, counted, counts)
    requires CallOutcome(mem, sm, tab, over, p, len, index, counts, start, progress, out, index1, counts1)
    ensures progress <= len
    ensures progress <= 0 ==> !Hashable(sm, tab)
    ensures progress > 0 ==>
      Resumable(mem, sm, tab, over, p + progress, index1, said, message + out[..progress], counted, counts1)
  {
    hide LoopAt, CallFrom, Sorted, StraddlesEnd, Walk, WellFormed;
    var pos, text, lo := p - sm.textStart, Text(mem, sm), sm.fipsTextStart - sm.textStart;
    if BadSpan(sm, p, len) {
    } else if start < 0 {
      if Hashable(sm, tab) {
        NothingAhead(sm, tab, pos);
      }
    } else if sm.textStart <= sm.fipsTextStart {
      if index == -1 {
        NotSearchFailed(sm, tab, lo);
        LoopStarts(sm, over, tab, text, lo, start, said, counted);
      }
      CallIs(mem, sm, over, tab, p, len, start, counts);
      AfterCall(sm, over, tab, text, lo, pos, len, start, said, message, counted, counts);
      if progress == 0 && Hashable(sm, tab) {
        StuckAtEnd(sm, over, tab, text, lo, pos, len, start, said, message, counted, counts, bufsiz,
                   sm.fipsTextEnd - sm.textStart);
      }
    }
  }

  lemma NothingStraddles(tab: seq<Entry>, lo: nat, i: nat, hi: nat)
    requires CursorAt(tab, lo, i, hi)
    ensures !StraddlesEnd(tab, lo, hi)
  {
  }

  lemma ResumableAtStart(mem: seq<byte>, sm: SegMap, tab: seq<Entry>, over: OversizeShift, said: seq<byte>,
                         counted: Counts)
    requires sm.textStart <= sm.textEnd <= |mem|
    ensures Resumable(mem, sm, tab, over, sm.fipsTextStart, -1, said, said, counted, counted)
  {
  }

  lemma LoopEnds(mem: seq<byte>, sm: SegMap, tab: seq<Entry>, over: OversizeShift, p: nat, i: int,
                 said: seq<byte>, message: seq<byte>, counted: Counts, counts: Counts)
    requires sm.textStart < sm.textEnd <= |mem| && Sound(sm, tab)
    requires sm.fipsTextStart < p == sm.fipsTextEnd
    requires Resumable(mem, sm, tab, over, p, i, said, message, counted, counts)
    ensures Hashable(sm, tab)
    ensures FedOnce(mem, sm, tab, over, said, message, counted, counts)
  {
    hide NormText, WellFormed, CursorAt, StraddlesEnd, CountedOnce, Tally, LowerBound;
    NothingStraddles(tab, sm.fipsTextStart - sm.textStart, i, p - sm.textStart);
    TallyIsCountedOnce(tab, sm.fipsTextStart - sm.textStart, p - sm.textStart, i, counted);
  }

  lemma EmptySearchFails(sm: SegMap, target: int)
    ensures target >= 0 ==> SearchFails(sm, [], target)
  {
  }

  /** No call reports more than its chunk, and on an empty table none succeeds. */
  lemma ProgressFits(mem: seq<byte>, sm: SegMap, tab: seq<Entry>, over: OversizeShift, p: nat, len: nat,
                     index: int, counts: Counts, start: int, progress: int, out: seq<byte>, index1: int,
                     counts1: Counts)
    requires sm.textEnd <= |mem| && (tab == [] ==> index < 0)
    requires CallOutcome(mem, sm, tab, over, p, len, index, counts, start, progress, out, index1, counts1)
    ensures progress <= len && (tab == [] ==> progress < 0)
  {
    hide Walk, SearchFails;
    if tab == [] {
      EmptySearchFails(sm, p - sm.textStart);
    }
  }

  lemma TruncateShrinks(n: nat)
    ensures Truncate32(n) <= n
  {
  }

  /** Feeds the normalised FIPS text to the HMAC chunk by chunk. On any table the loop ends, and success means that
      as many bytes were fed as the FIPS text has. On a well-formed table neither the fed bytes nor the outcome
      mention the buffer size. */
  method HashFipsText(mem: seq<byte>, sm: SegMap, tab: seq<Entry>, over: OversizeShift, bufsiz: nat,
                      hmac: HmacCtx, counts: RelocCounts)
      returns (ok: bool)
    requires sm.textStart < sm.textEnd <= |mem| && sm.fipsTextStart < sm.fipsTextEnd && 8 <= bufsiz
    modifies hmac, counts
    ensures ok ==> old(hmac.message) <= hmac.message
    ensures ok ==> |hmac.message| == |old(hmac.message)| + sm.fipsTextEnd - sm.fipsTextStart
    ensures Sound(sm, tab) ==> (ok <==> Hashable(sm, tab))
    ensures Sound(sm, tab) && ok ==>
      FedOnce(mem, sm, tab, over, old(hmac.message), hmac.message, old(counts.View()), counts.View())
  {
    hide *;
    ResumableAtStart(mem, sm, tab, over, hmac.message, counts.View());
    var cur := new RelocCursor();
    var buf := new byte[bufsiz];
    var p := sm.fipsTextStart;
    ghost var said, counted, sound := hmac.message, counts.View(), Sound(sm, tab);
    while p < sm.fipsTextEnd
      invariant sm.fipsTextStart <= p <= sm.fipsTextEnd
      invariant said <= hmac.message && |hmac.message| == |said| + p - sm.fipsTextStart
      invariant tab == [] ==> cur.index < 0
      invariant sound ==>
        Resumable(mem, sm, tab, over, p, cur.index, said, hmac.message, counted, counts.View())
    {
      var len := Truncate32(sm.fipsTextEnd - p);
      TruncateShrinks(sm.fipsTextEnd - p);
      if bufsiz < len { len := bufsiz; }
      ghost var index, before := cur.index, counts.View();
      ghost var start, index1, counts1;
      var progress;
      progress, start, index1, counts1 := NormalizeText(mem, sm, tab, over, p, len, buf, cur, counts);
      ProgressFits(mem, sm, tab, over, p, len, index, before, start, progress, buf[..len], index1, counts1);
      if sound {
        Round(mem, sm, tab, over, p, len, bufsiz, index, before, start, progress, buf[..len], index1, counts1,
              said, hmac.message, counted);
      }
      if progress <= 0 {
        return false;
      }
      assert buf[..len][..progress] == buf[..progress];
      hmac.Update(buf[..progress]);
      p := p + progress;
    }
    if sound {
      LoopEnds(mem, sm, tab, over, p, cur.index, said, hmac.message, counted, counts.View());
    }
    return true;
  }
}
