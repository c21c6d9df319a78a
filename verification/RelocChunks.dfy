/** The chunk loop over the FIPS text, on well-formed tables: what is hashed does not depend
    on the buffer size, and every relocation is rewritten and counted exactly once. */
module RelocChunks {
  import opened Words
  import opened RelocTable
  import opened RelocNormalize

  predicate IsReloc(e: Entry) { e.destSegment != SEG_NONE }

  function FieldEnd(e: Entry): nat { e.offset + Width(e.relocType) }

  /** Sorted, known types, no two relocated fields overlapping. The last entry is the sentinel. */
  ghost predicate WellFormed(tab: seq<Entry>) {
    && tab != []
    && Sorted(tab)
    && (forall k :: 0 <= k < |tab| - 1 && IsReloc(tab[k]) ==> KnownType(tab[k].relocType))
    && (forall i, j :: 0 <= i < j < |tab| - 1 && IsReloc(tab[i]) && IsReloc(tab[j]) ==>
          FieldEnd(tab[i]) <= tab[j].offset)
  }

  // ----- The normalised text, byte by byte -----

  /** Entry `k`, lying at or after `lo`, relocates the text byte at offset `p`. */
  predicate Covers(tab: seq<Entry>, lo: nat, k: nat, p: nat) {
    k < |tab| - 1 && IsReloc(tab[k]) && lo <= tab[k].offset <= p < FieldEnd(tab[k])
  }

  /** The entry among the first `n` that covers `p`, or -1. */
  function CoverIndex(tab: seq<Entry>, lo: nat, n: nat, p: nat): (k: int)
    ensures k == -1 || (0 <= k < n && Covers(tab, lo, k, p))
    ensures k == -1 ==> forall j :: 0 <= j < n ==> !Covers(tab, lo, j, p)
  {
    if n == 0 then -1
    else if Covers(tab, lo, n - 1, p) then n - 1
    else CoverIndex(tab, lo, n - 1, p)
  }

  /** Byte `p` of the text once the first `n` entries are applied to it. */
  function PartialByte(sm: SegMap, over: OversizeShift, tab: seq<Entry>, text: seq<byte>,
                       lo: nat, n: nat, p: nat): byte
    requires p < |text|
  {
    var k := CoverIndex(tab, lo, n, p);
    if k == -1 || FieldEnd(tab[k]) > |text| then text[p]
    else NormField(sm, over, tab[k], text[tab[k].offset..FieldEnd(tab[k])])[p - tab[k].offset]
  }

  /** Byte `p` of the fully normalised text. */
  function NormByte(sm: SegMap, over: OversizeShift, tab: seq<Entry>, text: seq<byte>, lo: nat, p: nat): byte
    requires p < |text|
  {
    PartialByte(sm, over, tab, text, lo, |tab|, p)
  }

  /** The normalised text from offset `lo` up to `hi`. */
  function NormText(sm: SegMap, over: OversizeShift, tab: seq<Entry>, text: seq<byte>, lo: nat, hi: nat): (s: seq<byte>)
    requires lo <= hi <= |text|
    ensures |s| == hi - lo
    ensures forall q :: 0 <= q < hi - lo ==> s[q] == NormByte(sm, over, tab, text, lo, lo + q)
    decreases hi
  {
    if lo == hi then [] else NormText(sm, over, tab, text, lo, hi - 1) + [NormByte(sm, over, tab, text, lo, hi - 1)]
  }

  /** Every byte outside the relocated fields is copied, and every relocated field is the normal form of its bytes. */
  lemma NormTextBytes(sm: SegMap, over: OversizeShift, tab: seq<Entry>, text: seq<byte>, lo: nat, hi: nat, p: nat)
    requires lo <= p < hi <= |text|
    ensures (forall k: nat :: k < |tab| ==> !Covers(tab, lo, k, p)) ==>
      NormText(sm, over, tab, text, lo, hi)[p - lo] == text[p]
    ensures WellFormed(tab) ==> forall k: nat :: Covers(tab, lo, k, p) && FieldEnd(tab[k]) <= |text| ==>
      NormText(sm, over, tab, text, lo, hi)[p - lo]
        == NormField(sm, over, tab[k], text[tab[k].offset..FieldEnd(tab[k])])[p - tab[k].offset]
  {
    hide NormField;
    assert NormText(sm, over, tab, text, lo, hi)[p - lo] == NormByte(sm, over, tab, text, lo, lo + (p - lo));
  }

  // ----- Counting -----

  /** Relocations with index in [a, b) into one destination segment. */
  function TallyOf(tab: seq<Entry>, a: nat, b: nat, seg: nat): int
    requires b <= |tab|
    decreases b - a
  {
    if a >= b then 0
    else TallyOf(tab, a + 1, b, seg) + if IsReloc(tab[a]) && Effective(tab[a].destSegment) == seg then 1 else 0
  }

  /** One count per relocation with index in [a, b), by destination segment. */
  function Tally(tab: seq<Entry>, a: nat, b: nat): Counts
    requires b <= |tab|
  {
    Counts(TallyOf(tab, a, b, SEG_TEXT), TallyOf(tab, a, b, SEG_RODATA), TallyOf(tab, a, b, SEG_RWDATA),
           TallyOf(tab, a, b, SEG_BSS), TallyOf(tab, a, b, SEG_OTHER))
  }

  lemma BumpAdd(c: Counts, d: Counts, seg: nat)
    ensures c.Bump(seg).Add(d) == c.Add(d).Bump(seg) == c.Add(d.Bump(seg))
  {
  }

  lemma AddAssociative(c: Counts, d: Counts, e: Counts)
    ensures c.Add(d).Add(e) == c.Add(d.Add(e))
  {
  }

  lemma ZeroAdd(d: Counts)
    ensures ZERO_COUNTS.Add(d) == d == d.Add(ZERO_COUNTS)
  {
  }

  lemma {:induction false} TallyOfSplit(tab: seq<Entry>, a: nat, b: nat, c: nat, seg: nat)
    requires a <= b <= c <= |tab|
    ensures TallyOf(tab, a, b, seg) + TallyOf(tab, b, c, seg) == TallyOf(tab, a, c, seg)
    decreases b - a
  {
    if a < b {
      TallyOfSplit(tab, a + 1, b, c, seg);
    }
  }

  lemma TallySplit(tab: seq<Entry>, a: nat, b: nat, c: nat)
    requires a <= b <= c <= |tab|
    ensures Tally(tab, a, b).Add(Tally(tab, b, c)) == Tally(tab, a, c)
  {
    hide TallyOf;
    forall seg: nat ensures TallyOf(tab, a, b, seg) + TallyOf(tab, b, c, seg) == TallyOf(tab, a, c, seg) {
      TallyOfSplit(tab, a, b, c, seg);
    }
  }

  /** The entry at `a` adds one to the counter of its destination. */
  lemma TallyBump(tab: seq<Entry>, a: nat, b: nat)
    requires a < b <= |tab|
    ensures Tally(tab, a, b)
         == if IsReloc(tab[a]) then Tally(tab, a + 1, b).Bump(Effective(tab[a].destSegment)) else Tally(tab, a + 1, b)
  {
  }

  // ----- One call on a well-formed table -----

  ghost predicate FinishedBy(tab: seq<Entry>, lo: nat, i: nat, pos: nat)
    requires i <= |tab|
  {
    forall k :: 0 <= k < i && IsReloc(tab[k]) ==> (tab[k].offset < lo || FieldEnd(tab[k]) <= pos)
  }

  ghost predicate AheadOf(tab: seq<Entry>, i: nat, pos: nat) {
    forall k :: i <= k < |tab| - 1 && IsReloc(tab[k]) ==> tab[k].offset >= pos
  }

  /** Entries before `i` are finished at position `pos`; those from `i` on are still ahead. */
  ghost predicate CursorAt(tab: seq<Entry>, lo: nat, i: nat, pos: nat) {
    && i <= |tab| - 1
    && FinishedBy(tab, lo, i, pos)
    && AheadOf(tab, i, pos)
  }

  /** Relocation `k` starts at `from` and ends past `to`. */
  ghost predicate Straddles(tab: seq<Entry>, k: nat, from: nat, to: nat) {
    k < |tab| - 1 && IsReloc(tab[k]) && tab[k].offset == from && FieldEnd(tab[k]) > to
  }

  /** What one call leaves behind, started at position `pos` and table index `i` on `len` bytes. */
  ghost predicate ChunkDone(sm: SegMap, over: OversizeShift, tab: seq<Entry>, text: seq<byte>,
                            lo: nat, pos: nat, len: nat, i: nat, counts: Counts, r: WalkResult)
    requires pos + len <= |text|
  {
    && r.Walked? && r.len <= len && |r.out| == len && i <= r.index
    && CursorAt(tab, lo, r.index, pos + r.len)
    && (forall q :: 0 <= q < r.len ==> r.out[q] == NormByte(sm, over, tab, text, lo, pos + q))
    && r.counts == counts.Add(Tally(tab, i, r.index))
    // a short result stops right at a relocation that straddles the end of the chunk
    && (r.len < len ==> Straddles(tab, r.index, pos + r.len, pos + len))
  }

  lemma {:induction false} CoverStable(tab: seq<Entry>, lo: nat, a: nat, b: nat, p: nat)
    requires a <= b
    requires forall k :: a <= k < b ==> !Covers(tab, lo, k, p)
    ensures CoverIndex(tab, lo, a, p) == CoverIndex(tab, lo, b, p)
    decreases b - a
  {
    if a < b {
      CoverStable(tab, lo, a, b - 1, p);
    }
  }

  /** Earlier entries leave the field of entry `i` alone. */
  lemma FieldUntouched(sm: SegMap, over: OversizeShift, tab: seq<Entry>, text: seq<byte>, lo: nat, i: nat, p: nat)
    requires WellFormed(tab) && i < |tab| - 1 && IsReloc(tab[i]) && tab[i].offset <= p < FieldEnd(tab[i]) && p < |text|
    ensures PartialByte(sm, over, tab, text, lo, i, p) == text[p]
  {
    hide NormField, Width;
    var k := CoverIndex(tab, lo, i, p);
    assert k == -1;
  }

  /** One more entry decides the bytes of its own field. */
  lemma PartialNext(sm: SegMap, over: OversizeShift, tab: seq<Entry>, text: seq<byte>, lo: nat, i: nat, p: nat)
    requires i < |tab| - 1 && IsReloc(tab[i]) && lo <= tab[i].offset && FieldEnd(tab[i]) <= |text| && p < |text|
    requires KnownType(tab[i].relocType)
    ensures PartialByte(sm, over, tab, text, lo, i + 1, p) ==
      if tab[i].offset <= p < FieldEnd(tab[i]) then
        NormField(sm, over, tab[i], text[tab[i].offset..FieldEnd(tab[i])])[p - tab[i].offset]
      else PartialByte(sm, over, tab, text, lo, i, p)
  {
    hide NormField, Width;
  }

  /** Applying entry `i` to a chunk where the earlier entries are already applied. */
  lemma RewriteStep(sm: SegMap, over: OversizeShift, tab: seq<Entry>, text: seq<byte>,
                    lo: nat, pos: nat, out: seq<byte>, i: nat)
    requires WellFormed(tab) && i < |tab| - 1 && IsReloc(tab[i])
    requires lo <= pos <= tab[i].offset && FieldEnd(tab[i]) <= pos + |out| <= |text|
    requires forall q :: 0 <= q < |out| ==> out[q] == PartialByte(sm, over, tab, text, lo, i, pos + q)
    ensures var r := Rewritten(sm, over, tab[i], out, tab[i].offset - pos);
      forall q :: 0 <= q < |out| ==> r[q] == PartialByte(sm, over, tab, text, lo, i + 1, pos + q)
  {
    hide NormField, PartialByte, Overwrite, Width, Sorted;
    var e := tab[i];
    var rel, w := e.offset - pos, Width(e.relocType);
    var raw := text[e.offset..FieldEnd(e)];
    forall j | 0 <= j < w ensures out[rel + j] == raw[j] {
      FieldUntouched(sm, over, tab, text, lo, i, e.offset + j);
      assert pos + (rel + j) == e.offset + j;
    }
    assert out[rel..rel + w] == raw;
    var field := NormField(sm, over, e, raw);
    var r := Rewritten(sm, over, e, out, rel);
    assert r == Overwrite(out, rel, field);
    forall q | 0 <= q < |out| ensures r[q] == PartialByte(sm, over, tab, text, lo, i + 1, pos + q) {
      PartialNext(sm, over, tab, text, lo, i, pos + q);
      OverwriteAt(out, rel, field, q);
    }
  }

  /** Where the walk stops at entry `i`, the first `n` bytes are final. */
  lemma WalkStops(sm: SegMap, over: OversizeShift, tab: seq<Entry>, text: seq<byte>,
                  lo: nat, pos: nat, out: seq<byte>, i: nat, n: nat, counts: Counts)
    requires i < |tab| && n <= |out| && pos + |out| <= |text|
    requires FinishedBy(tab, lo, i, pos + n) && AheadOf(tab, i, pos + n)
    requires n < |out| ==> Straddles(tab, i, pos + n, pos + |out|)
    requires forall q :: 0 <= q < |out| ==> out[q] == PartialByte(sm, over, tab, text, lo, i, pos + q)
    ensures ChunkDone(sm, over, tab, text, lo, pos, |out|, i, counts, Walked(i, n, out, counts))
  {
    hide NormField, Straddles;
    forall q | 0 <= q < n ensures out[q] == NormByte(sm, over, tab, text, lo, pos + q) {
      CoverStable(tab, lo, i, |tab|, pos + q);
    }
  }

  lemma SkipStep(sm: SegMap, over: OversizeShift, tab: seq<Entry>, text: seq<byte>, lo: nat, i: nat, p: nat)
    requires i < |tab| && !IsReloc(tab[i]) && p < |text|
    ensures PartialByte(sm, over, tab, text, lo, i + 1, p) == PartialByte(sm, over, tab, text, lo, i, p)
  {
  }

  /** Entry `i` accounts for the difference between the counters before and after it. */
  lemma ChunkExtends(sm: SegMap, over: OversizeShift, tab: seq<Entry>, text: seq<byte>, lo: nat, pos: nat, len: nat,
                     i: nat, counts: Counts, counts1: Counts, r: WalkResult)
    requires pos + len <= |text| && i < |tab|
    requires counts1 == if IsReloc(tab[i]) then counts.Bump(Effective(tab[i].destSegment)) else counts
    requires ChunkDone(sm, over, tab, text, lo, pos, len, i + 1, counts1, r)
    ensures ChunkDone(sm, over, tab, text, lo, pos, len, i, counts, r)
  {
    hide PartialByte, Counts.Bump, Counts.Add, Effective, Straddles, Tally;
    TallyBump(tab, i, r.index);
    if IsReloc(tab[i]) {
      BumpAdd(counts, Tally(tab, i + 1, r.index), Effective(tab[i].destSegment));
    }
  }

  /** On a well-formed table a call never fails, and stops only at the end of its chunk or
      in front of a relocation that straddles it. */
  lemma {:induction false} WalkOnWellFormed(sm: SegMap, over: OversizeShift, tab: seq<Entry>, text: seq<byte>,
                          lo: nat, pos: nat, out: seq<byte>, i: nat, last: nat, counts: Counts)
    requires WellFormed(tab) && last <= i <= |tab| - 1
    requires lo <= pos && pos + |out| <= |text| < 0x1_0000_0000
    requires FinishedBy(tab, lo, i, pos + |out|) && AheadOf(tab, i, pos)
    requires forall q :: 0 <= q < |out| ==> out[q] == PartialByte(sm, over, tab, text, lo, i, pos + q)
    ensures ChunkDone(sm, over, tab, text, lo, pos, |out|, i, counts,
                      Walk(sm, over, tab, pos, out, i, last, counts))
    decreases |tab| - i
  {
    hide NormField, PartialByte, Counts.Bump, Counts.Add, Rewritten, ChunkDone, Effective;
    var r := Walk(sm, over, tab, pos, out, i, last, counts);
    if i == |tab| - 1 {
      WalkStops(sm, over, tab, text, lo, pos, out, i, |out|, counts);
    } else if !IsReloc(tab[i]) {
      forall q | 0 <= q < |out| ensures out[q] == PartialByte(sm, over, tab, text, lo, i + 1, pos + q) {
        SkipStep(sm, over, tab, text, lo, i, pos + q);
      }
      WalkOnWellFormed(sm, over, tab, text, lo, pos, out, i + 1, last, counts);
      ChunkExtends(sm, over, tab, text, lo, pos, |out|, i, counts, counts, r);
    } else {
      var e := tab[i];
      var rel, w := e.offset - pos, Width(e.relocType);
      if rel >= |out| {
        WalkStops(sm, over, tab, text, lo, pos, out, i, |out|, counts);
      } else if rel + w > |out| {
        WalkStops(sm, over, tab, text, lo, pos, out, i, rel, counts);
      } else {
        var out1, counts1 := Rewritten(sm, over, e, out, rel), counts.Bump(Effective(e.destSegment));
        RewriteStep(sm, over, tab, text, lo, pos, out, i);
        assert r == Walk(sm, over, tab, pos, out1, i + 1, i, counts1);
        WalkOnWellFormed(sm, over, tab, text, lo, pos, out1, i + 1, i, counts1);
        ChunkExtends(sm, over, tab, text, lo, pos, |out|, i, counts, counts1, r);
      }
    }
  }

  /** A call resumed from a cursor position on fresh text. */
  lemma ChunkFromCursor(sm: SegMap, over: OversizeShift, tab: seq<Entry>, text: seq<byte>,
                        lo: nat, pos: nat, len: nat, i: nat, counts: Counts)
    requires WellFormed(tab) && CursorAt(tab, lo, i, pos)
    requires lo <= pos && pos + len <= |text| < 0x1_0000_0000
    ensures ChunkDone(sm, over, tab, text, lo, pos, len, i, counts,
                      Walk(sm, over, tab, pos, text[pos..pos + len], i, if i > 0 then i - 1 else 0, counts))
  {
    hide Walk, ChunkDone, NormField;
    var out := text[pos..pos + len];
    forall q | 0 <= q < len ensures out[q] == PartialByte(sm, over, tab, text, lo, i, pos + q) {
      CoverStable(tab, lo, 0, i, pos + q);
    }
    WalkOnWellFormed(sm, over, tab, text, lo, pos, out, i, if i > 0 then i - 1 else 0, counts);
  }

  /** A single call over the whole range produces the normalised text, unless a relocation straddles its end. */
  lemma OnePass(sm: SegMap, over: OversizeShift, tab: seq<Entry>, text: seq<byte>, lo: nat, hi: nat, counts: Counts)
    requires WellFormed(tab) && lo <= hi <= |text| < 0x1_0000_0000 && LowerBound(tab, lo) <= |tab| - 1
    ensures var i := LowerBound(tab, lo);
      var r := Walk(sm, over, tab, lo, text[lo..hi], i, if i > 0 then i - 1 else 0, counts);
      r.Walked? && r.out[..r.len] == NormText(sm, over, tab, text, lo, lo + r.len)
      && (r.len < hi - lo ==> Straddles(tab, r.index, lo + r.len, hi))
  {
    hide Walk, NormByte;
    var i := LowerBound(tab, lo);
    assert CursorAt(tab, lo, i, lo);
    ChunkFromCursor(sm, over, tab, text, lo, lo, hi - lo, i, counts);
  }

  lemma NormTextAppend(sm: SegMap, over: OversizeShift, tab: seq<Entry>, text: seq<byte>, lo: nat, mid: nat,
                       part: seq<byte>)
    requires lo <= mid && mid + |part| <= |text|
    requires forall q :: 0 <= q < |part| ==> part[q] == NormByte(sm, over, tab, text, lo, mid + q)
    ensures NormText(sm, over, tab, text, lo, mid) + part == NormText(sm, over, tab, text, lo, mid + |part|)
  {
    hide NormByte;
    var whole := NormText(sm, over, tab, text, lo, mid + |part|);
    forall q | 0 <= q < |whole| ensures (NormText(sm, over, tab, text, lo, mid) + part)[q] == whole[q] {
      if q >= mid - lo {
        assert part[q - (mid - lo)] == NormByte(sm, over, tab, text, lo, mid + (q - (mid - lo)));
      }
    }
  }
}
