/** One call of the text normaliser: a resumable walk over the relocation table
    that rewrites every relocated field of a chunk of text. */
module RelocNormalize {
  import opened Words
  import opened RelocTable

  const WC_RELOC_DEST_SEGMENT_BITS := 3
  const WC_RELOC_TYPE_BITS := 5

  /** The value of a C shift whose count exceeds the 32-bit operand: left to the platform. */
  type OversizeShift = (nat, nat) -> word64

  datatype Counts = Counts(text: int, rodata: int, rwdata: int, bss: int, other: int) {
    function Bump(seg: nat): Counts {
      if seg == SEG_TEXT then this.(text := text + 1)
      else if seg == SEG_RODATA then this.(rodata := rodata + 1)
      else if seg == SEG_RWDATA then this.(rwdata := rwdata + 1)
      else if seg == SEG_BSS then this.(bss := bss + 1)
      else this.(other := other + 1)
    }

    function Add(d: Counts): Counts {
      Counts(text + d.text, rodata + d.rodata, rwdata + d.rwdata, bss + d.bss, other + d.other)
    }

    function Total(): int { text + rodata + rwdata + bss + other }
  }

  const ZERO_COUNTS := Counts(0, 0, 0, 0, 0)

  class RelocCounts {
    var text: int
    var rodata: int
    var rwdata: int
    var bss: int
    var other: int

    function View(): Counts
      reads this
    {
      Counts(text, rodata, rwdata, bss, other)
    }

    method Accumulate(d: Counts)
      modifies this
      ensures View() == old(View()).Add(d)
      ensures text == old(text) + d.text && rodata == old(rodata) + d.rodata && rwdata == old(rwdata) + d.rwdata
      ensures bss == old(bss) + d.bss && other == old(other) + d.other
    {
      text, rodata, rwdata := text + d.text, rodata + d.rodata, rwdata + d.rwdata;
      bss, other := bss + d.bss, other + d.other;
    }
  }

  /** Where the next call resumes; -1 asks for a search. */
  class RelocCursor {
    var index: int

    constructor ()
      ensures index == -1
    {
      index := -1;
    }
  }

  // ----- One relocated field -----

  /** Unknown segments are treated like references leaving the module. */
  function Effective(seg: nat): nat {
    if SEG_TEXT <= seg <= SEG_BSS then seg else SEG_OTHER
  }

  function SegBase(sm: SegMap, seg: nat): nat {
    if seg == SEG_TEXT then sm.textStart
    else if seg == SEG_RODATA then sm.rodataStart
    else if seg == SEG_RWDATA then sm.dataStart
    else if seg == SEG_BSS then sm.bssStart
    else 0
  }

  /** Fields the normaliser can only blank: references leaving the module, and every ARM type. */
  predicate Erased(e: Entry) {
    Effective(e.destSegment) == SEG_OTHER || e.relocType >= R_AARCH64_ABS32
  }

  /** The field as a 64-bit word, sign-extended for the signed layouts. */
  function Load(raw: seq<byte>, signed: bool): (v: word64)
    requires |raw| in {2, 4, 8}
  {
    var v := DecodeWord(raw);
    var span := if |raw| == 2 then 0x1_0000 else if |raw| == 4 then 0x1_0000_0000 else 0x1_0000_0000_0000_0000;
    if signed && v >= span / 2 then v + 0x1_0000_0000_0000_0000 - span else v
  }

  /** A loaded field is the number its bytes stand for, in two's complement if signed, as a word of 64 bits. */
  lemma LoadExtends(raw: seq<byte>, signed: bool)
    requires |raw| in {2, 4, 8}
    ensures var (v, d) := (Load(raw, signed), DecodeWord(raw));
      var top := if |raw| == 2 then 0x8000 else if |raw| == 4 then 0x8000_0000 else 0x8000_0000_0000_0000;
      if signed then -top <= v as int - (if v < 0x8000_0000_0000_0000 then 0 else 0x1_0000_0000_0000_0000) < top
                     && (v as int - d) % (2 * top) == 0
      else v == d
  {
  }

  /** The destination's offset in its segment, free of every load address. */
  function Rebase(sm: SegMap, e: Entry, loaded: word64): word64 {
    if Erased(e) then 0
    else if !sm.textIsLive then e.destOffset
    else
      var base := SegBase(sm, e.destSegment);
      if IsRelative(e.relocType) then
        (loaded + e.offset - e.destAddend - (base - sm.textStart)) % 0x1_0000_0000_0000_0000
      else
        (loaded - base - e.destAddend) % 0x1_0000_0000_0000_0000
  }

  function ShiftLeft(over: OversizeShift, v: nat, count: nat): word64 {
    if count < 32 then (v * Pow2(count)) % 0x1_0000_0000 else over(v, count)
  }

  /** Exclusive or with the two labels identifying segment and type. */
  function Label(over: OversizeShift, e: Entry, v: nat): nat
    requires KnownType(e.relocType)
  {
    var bits := 8 * Width(e.relocType);
    Xor(Xor(v, ShiftLeft(over, Effective(e.destSegment), bits - WC_RELOC_DEST_SEGMENT_BITS), 64),
        ShiftLeft(over, e.relocType, bits - (WC_RELOC_DEST_SEGMENT_BITS + WC_RELOC_TYPE_BITS)), 64)
  }

  function NormField(sm: SegMap, over: OversizeShift, e: Entry, raw: seq<byte>): (b: seq<byte>)
    requires KnownType(e.relocType) && |raw| == Width(e.relocType)
    ensures |b| == |raw|
  {
    Encode(Label(over, e, Rebase(sm, e, Load(raw, IsSigned(e.relocType)))), |raw|)
  }

  // ----- The walk over the table -----

  datatype WalkResult =
    | Failed
    | Walked(index: nat, len: nat, out: seq<byte>, counts: Counts)

  /** `out` with the field of relocation `e` at `rel` normalised. */
  function Rewritten(sm: SegMap, over: OversizeShift, e: Entry, out: seq<byte>, rel: nat): (r: seq<byte>)
    requires KnownType(e.relocType) && rel + Width(e.relocType) <= |out|
    ensures |r| == |out|
  {
    Overwrite(out, rel, NormField(sm, over, e, out[rel..rel + Width(e.relocType)]))
  }

  /** What a call does from table index `i` on, for any table at all. `off` is the
      chunk's offset in the text segment and `last` the last entry looked at. */
  function Walk(sm: SegMap, over: OversizeShift, tab: seq<Entry>, off: nat,
                out: seq<byte>, i: nat, last: nat, counts: Counts): (r: WalkResult)
    requires i < |tab| - 1 ==> last < |tab|
    ensures r.Walked? ==> r.len <= |out| && |r.out| == |out| && i <= r.index
    decreases |tab| - i
  {
    if i >= |tab| - 1 then Walked(i, |out|, out, counts)
    else
      var e := tab[i];
      if e.destSegment == SEG_NONE then Walk(sm, over, tab, off, out, i + 1, last, counts)
      else if tab[last].offset > e.offset then Failed
      else if !KnownType(e.relocType) then Failed
      else
        var rel := (e.offset - off) % 0x1_0000_0000;
        var w := Width(e.relocType);
        if rel >= |out| then Walked(i, |out|, out, counts)
        else if |out| < w || rel > |out| - w then Walked(i, rel, out, counts)
        else
          Walk(sm, over, tab, off, Rewritten(sm, over, e, out, rel),
               i + 1, i, counts.Bump(Effective(e.destSegment)))
  }

  /** Entry `k` is skipped, or of a known type and not in front of `last` or any from `i` on that is not skipped. */
  ghost predicate InOrder(tab: seq<Entry>, i: nat, last: nat, k: nat)
    requires i <= k < |tab| && last < |tab|
  {
    tab[k].destSegment != SEG_NONE ==>
      && 2 <= tab[k].relocType < 26 && tab[last].offset <= tab[k].offset
      && forall j :: i <= j < k && tab[j].destSegment != SEG_NONE ==> tab[j].offset <= tab[k].offset
  }

  lemma InOrderFirst(tab: seq<Entry>, i: nat, last: nat)
    requires i < |tab| && last < |tab|
    ensures InOrder(tab, i, last, i) <==>
      tab[i].destSegment == SEG_NONE || (KnownType(tab[i].relocType) && tab[last].offset <= tab[i].offset)
  {
  }

  lemma InOrderNext(tab: seq<Entry>, i: nat, last: nat, k: nat)
    requires i < k < |tab| && last < |tab|
    ensures tab[i].destSegment == SEG_NONE ==> (InOrder(tab, i, last, k) <==> InOrder(tab, i + 1, last, k))
    ensures tab[i].destSegment != SEG_NONE && tab[last].offset <= tab[i].offset ==>
      (InOrder(tab, i, last, k) <==> InOrder(tab, i + 1, i, k))
  {
  }

  /** The walk met nothing out of order, or failed on something that is. */
  ghost predicate ChecksOrder(tab: seq<Entry>, i: nat, last: nat, r: WalkResult)
    requires i < |tab| && last < |tab|
  {
    match r
    case Walked(index, _, _, _) => forall k :: i <= k <= index && k < |tab| - 1 ==> InOrder(tab, i, last, k)
    case Failed => exists k :: i <= k < |tab| - 1 && !InOrder(tab, i, last, k)
  }

  lemma WalkChecksNext(tab: seq<Entry>, i: nat, last: nat, next: nat, r: WalkResult)
    requires i < |tab| - 1 && last < |tab| && InOrder(tab, i, last, i)
    requires next == (if tab[i].destSegment == SEG_NONE then last else i) && ChecksOrder(tab, i + 1, next, r)
    ensures ChecksOrder(tab, i, last, r)
  {
    InOrderFirst(tab, i, last);
    forall k | i < k < |tab| ensures InOrder(tab, i, last, k) <==> InOrder(tab, i + 1, next, k) {
      InOrderNext(tab, i, last, k);
    }
    hide InOrder;
    if r.Failed? {
      var k :| i + 1 <= k < |tab| - 1 && !InOrder(tab, i + 1, next, k);
      assert !InOrder(tab, i, last, k);
    }
  }

  /** A walk comes to its end only over known types in order, and fails only over others. */
  lemma {:induction false} WalkChecks(sm: SegMap, over: OversizeShift, tab: seq<Entry>, off: nat,
                                      out: seq<byte>, i: nat, last: nat, counts: Counts)
    requires i < |tab| && last < |tab|
    ensures ChecksOrder(tab, i, last, Walk(sm, over, tab, off, out, i, last, counts))
    decreases |tab| - i
  {
    hide Rewritten, Effective, Counts.Bump, InOrder;
    var r := Walk(sm, over, tab, off, out, i, last, counts);
    InOrderFirst(tab, i, last);
    if i < |tab| - 1 {
      var e := tab[i];
      if e.destSegment == SEG_NONE {
        WalkChecks(sm, over, tab, off, out, i + 1, last, counts);
        WalkChecksNext(tab, i, last, last, r);
      } else if InOrder(tab, i, last, i) {
        var rel := (e.offset - off) % 0x1_0000_0000;
        if rel + Width(e.relocType) <= |out| {
          WalkChecks(sm, over, tab, off, Rewritten(sm, over, e, out, rel), i + 1, i,
                     counts.Bump(Effective(e.destSegment)));
          WalkChecksNext(tab, i, last, i, r);
        }
      }
    }
  }

  // ----- The call itself -----

  predicate BadSpan(sm: SegMap, textIn: nat, textInLen: nat) {
    textInLen == 0 || textIn < sm.textStart || textIn + textInLen > sm.textEnd
  }

  lemma OverwriteIs(out: seq<byte>, at: nat, b: seq<byte>, r: seq<byte>)
    requires at + |b| <= |out| == |r|
    requires forall j :: 0 <= j < |b| ==> r[at + j] == b[j]
    requires forall j :: 0 <= j < |out| && !(at <= j < at + |b|) ==> r[j] == out[j]
    ensures r == Overwrite(out, at, b)
  {
    forall j | 0 <= j < |out| ensures r[j] == Overwrite(out, at, b)[j] {
      if at <= j < at + |b| {
        assert r[at + (j - at)] == b[j - at];
      }
    }
  }

  method Put(a: array<byte>, at: nat, b: seq<byte>)
    requires at + |b| <= a.Length
    modifies a
    ensures a[..] == Overwrite(old(a[..]), at, b)
  {
    for k := 0 to |b|
      invariant forall j :: 0 <= j < k ==> a[at + j] == b[j]
      invariant forall j :: 0 <= j < a.Length && !(at <= j < at + k) ==> a[j] == old(a[j])
    {
      a[at + k] := b[k];
    }
    OverwriteIs(old(a[..]), at, b, a[..]);
  }

  lemma OverwritePrefix(out: seq<byte>, at: nat, b: seq<byte>, n: nat)
    requires at + |b| <= n <= |out|
    ensures Overwrite(out, at, b)[..n] == Overwrite(out[..n], at, b)
    ensures Overwrite(out, at, b)[n..] == out[n..]
  {
  }

  lemma OverwriteFront(out: seq<byte>, b: seq<byte>)
    requires |b| <= |out|
    ensures Overwrite(out, 0, b)[..|b|] == b && Overwrite(out, 0, b)[|b|..] == out[|b|..]
  {
  }

  /** Rewrites the field of one relocation in place. */
  method RewriteField(sm: SegMap, over: OversizeShift, e: Entry, textInLen: nat, textOut: array<byte>, rel: nat)
    requires KnownType(e.relocType) && rel + Width(e.relocType) <= textInLen <= textOut.Length
    modifies textOut
    ensures textOut[textInLen..] == old(textOut[textInLen..])
    ensures textOut[..textInLen] ==
      Rewritten(sm, over, e, old(textOut[..textInLen]), rel)
  {
    var w := Width(e.relocType);
    assert textOut[rel..rel + w] == textOut[..textInLen][rel..rel + w];
    var loaded := Load(textOut[rel..rel + w], IsSigned(e.relocType));
    var field := Encode(Label(over, e, Rebase(sm, e, loaded)), w);
    OverwritePrefix(textOut[..], rel, field, textInLen);
    Put(textOut, rel, field);
  }

  /** The loop of the call: rewrites fields of the copied chunk until the table or the chunk is exhausted. */
  method WalkTable(sm: SegMap, over: OversizeShift, tab: seq<Entry>, off: nat, textInLen: nat, textOut: array<byte>,
                   start: nat, startLast: nat, ghost base: Counts)
      returns (len: int, i: nat, counts: Counts)
    requires textInLen <= textOut.Length && (start < |tab| - 1 ==> startLast < |tab|)
    modifies textOut
    ensures textOut[textInLen..] == old(textOut[textInLen..])
    ensures match Walk(sm, over, tab, off, old(textOut[..textInLen]), start, startLast, base)
      case Failed => len == -1
      case Walked(index, n, out, total) =>
        len == n && i == index && textOut[..textInLen] == out && base.Add(counts) == total
  {
    hide NormField;
    len, i, counts := textInLen, start, ZERO_COUNTS;
    var last := startLast;
    ghost var whole := Walk(sm, over, tab, off, textOut[..textInLen], i, last, base);
    while i < |tab| - 1
      invariant start <= i && 0 <= last && (i < |tab| - 1 ==> last < |tab|) && len == textInLen
      invariant textOut[textInLen..] == old(textOut[textInLen..])
      invariant whole == Walk(sm, over, tab, off, textOut[..textInLen], i, last, base.Add(counts))
      decreases |tab| - i
    {
      var e := tab[i];
      if e.destSegment == SEG_NONE {
        i := i + 1;
        continue;
      }
      if tab[last].offset > e.offset {
        return -1, i, counts;
      }
      if !KnownType(e.relocType) {
        return -1, i, counts;
      }
      last := i;
      var w := Width(e.relocType);
      var rel := (e.offset - off) % 0x1_0000_0000;
      if rel >= len {
        break;
      }
      if len < w || rel > len - w {
        len := rel;
        break;
      }
      ghost var out := textOut[..textInLen];
      var seg := Effective(e.destSegment);
      assert base.Add(counts).Bump(seg) == base.Add(counts.Bump(seg));
      assert whole == Walk(sm, over, tab, off, Rewritten(sm, over, e, out, rel), i + 1, i, base.Add(counts).Bump(seg));
      counts := counts.Bump(seg);
      RewriteField(sm, over, e, textInLen, textOut, rel);
      i := i + 1;
    }
  }

  /** The cursor resumes, or else the search decides. */
  ghost predicate StartsAt(sm: SegMap, tab: seq<Entry>, off: nat, index: int, start: int) {
    if index != -1 then start == index
    else if SearchFails(sm, tab, off) then start == -1
    else Crossing(tab, off, start)
  }

  /** Everything a call does. `index` and `counts` are the cursor and the counters before the call,
      `index1` and `counts1` after it; `start` is the table index the walk began at. */
  ghost predicate CallOutcome(mem: seq<byte>, sm: SegMap, tab: seq<Entry>, over: OversizeShift, textIn: nat, len: nat,
                              index: int, counts: Counts, start: int,
                              r: int, out: seq<byte>, index1: int, counts1: Counts)
    requires sm.textEnd <= |mem|
  {
    if BadSpan(sm, textIn, len) then r == -1 && index1 == index && counts1 == counts
    else
      var off := textIn - sm.textStart;
      && StartsAt(sm, tab, off, index, start)
      && (start < 0 ==> r == start && index1 == index && counts1 == counts)
      && (start >= 0 ==>
            && tab != []
            && var last := if start > 0 then start - 1 else 0;
            var w := Walk(sm, over, tab, off, mem[textIn..textIn + len], start, last, counts);
            if w.Failed? then r == -1 && index1 == index && counts1 == counts
            else r == w.len && out == w.out && index1 == w.index && counts1 == w.counts)
  }

  lemma OutcomeOfWalk(mem: seq<byte>, sm: SegMap, tab: seq<Entry>, over: OversizeShift, textIn: nat, len: nat,
                      index: int, counts: Counts, start: int, w: WalkResult,
                      r: int, out: seq<byte>, index1: int, counts1: Counts)
    requires sm.textEnd <= |mem| && tab != [] && !BadSpan(sm, textIn, len) && 0 <= start
    requires if w.Failed? then r == -1 && index1 == index && counts1 == counts
      else r == w.len && out == w.out && index1 == w.index && counts1 == w.counts
    ensures StartsAt(sm, tab, textIn - sm.textStart, index, start)
      && w == Walk(sm, over, tab, textIn - sm.textStart, mem[textIn..textIn + len], start,
                   if start > 0 then start - 1 else 0, counts)
      ==> CallOutcome(mem, sm, tab, over, textIn, len, index, counts, start, r, out, index1, counts1)
  {
    hide Walk, StartsAt, BadSpan;
  }

  lemma OutcomeWithoutWalk(mem: seq<byte>, sm: SegMap, tab: seq<Entry>, over: OversizeShift, textIn: nat, len: nat,
                           index: int, counts: Counts, start: int, out: seq<byte>)
    requires sm.textEnd <= |mem|
    requires if BadSpan(sm, textIn, len) then start == -1
      else start < 0 && StartsAt(sm, tab, textIn - sm.textStart, index, start)
    ensures CallOutcome(mem, sm, tab, over, textIn, len, index, counts, start, start, out, index, counts)
  {
    hide Walk, StartsAt;
  }

  /** Normalises `textInLen` bytes of text at address `textIn` into `textOut`.
      The result is the number of bytes finished, cut short where a relocation straddles the end. */
  method NormalizeText(mem: seq<byte>, sm: SegMap, tab: seq<Entry>, over: OversizeShift, textIn: nat, textInLen: nat,
                       textOut: array<byte>, cur: RelocCursor?, counts: RelocCounts?)
      returns (r: int, ghost start: int, ghost index1: int, ghost counts1: Counts)
    requires sm.textEnd <= |mem|
    requires textInLen <= textOut.Length
    requires tab == [] && cur != null ==> cur.index < 0
    modifies textOut, cur, counts
    ensures CallOutcome(mem, sm, tab, over, textIn, textInLen,
                        if cur == null then -1 else old(cur.index),
                        if counts == null then ZERO_COUNTS else old(counts.View()), start,
                        r, textOut[..textInLen], index1, counts1)
    ensures cur != null ==> cur.index == index1
    ensures counts != null ==> counts.View() == counts1
    ensures textInLen == 0 || textIn < sm.textStart || sm.textEnd < textIn + textInLen ==> r == -1 && start == -1
    ensures r < 0 && start < 0 ==> textOut[..] == old(textOut[..])
    ensures textOut[textInLen..] == old(textOut[textInLen..])
  {
    hide Walk, SearchFails, Crossing, Overwrite, RelocCounts.View, Counts.Add, CallOutcome;
    start, index1 := -1, if cur == null then -1 else cur.index;
    counts1 := if counts == null then ZERO_COUNTS else counts.View();
    ghost var index0, counts0 := index1, counts1;
    if textInLen == 0 || textIn < sm.textStart || textIn + textInLen > sm.textEnd {
      r := -1;
      OutcomeWithoutWalk(mem, sm, tab, over, textIn, textInLen, index0, counts0, start, textOut[..textInLen]);
      return;
    }
    var off := textIn - sm.textStart;
    var i := if cur != null then cur.index else -1;
    if i == -1 {
      i := FindRelocTabOffset(sm, tab, off);
    }
    start := i;
    if i < 0 {
      r := i;
      OutcomeWithoutWalk(mem, sm, tab, over, textIn, textInLen, index0, counts0, start, textOut[..textInLen]);
      return;
    }

    Put(textOut, 0, mem[textIn..textIn + textInLen]);
    OverwriteFront(old(textOut[..]), mem[textIn..textIn + textInLen]);

    var last := if i > 0 then i - 1 else 0;
    ghost var w := Walk(sm, over, tab, off, textOut[..textInLen], i, last, counts1);
    var delta;
    r, i, delta := WalkTable(sm, over, tab, off, textInLen, textOut, i, last, counts1);
    if r < 0 {
      OutcomeOfWalk(mem, sm, tab, over, textIn, textInLen, index0, counts0, start, w,
                    r, textOut[..textInLen], index1, counts1);
      return;
    }
    index1, counts1 := i, counts1.Add(delta);
    OutcomeOfWalk(mem, sm, tab, over, textIn, textInLen, index0, counts0, start, w,
                  r, textOut[..textInLen], index1, counts1);
    if counts != null {
      counts.Accumulate(delta);
    }
    if cur != null {
      cur.index := i;
    }
  }
}
