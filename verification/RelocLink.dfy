/** The normalised text does not depend on where the module was loaded, and hides nothing but
    the fields that can only be blanked. */
module RelocLink {
  import opened Words
  import opened RelocTable
  import opened RelocNormalize
  import opened RelocChunks
  import opened FipsText

  // ----- One field -----

  /** Truncation to `n` bytes. */
  function Wrap(v: int, n: nat): nat
    requires n in {2, 4, 8}
  {
    if n == 2 then v % 0x1_0000 else if n == 4 then v % 0x1_0000_0000 else v % 0x1_0000_0000_0000_0000
  }

  /** S: the address of the symbol at offset `sym` in the entry's segment. */
  function SymbolAddress(sm: SegMap, e: Entry, sym: nat): nat {
    match e.destSegment
    case 2 => sm.textStart + sym
    case 3 => sm.rodataStart + sym
    case 4 => sm.dataStart + sym
    case 5 => sm.bssStart + sym
    case _ => sym
  }

  /** What the loader stores: S + A - P for R_X86_64_PC32 and R_X86_64_PLT32, or else S + A, in the field's width. */
  function LinkValue(sm: SegMap, e: Entry, sym: nat): nat
    requires KnownType(e.relocType)
  {
    var s, p := SymbolAddress(sm, e, sym), sm.textStart + e.offset;
    Wrap(if e.relocType in {5, 6} then s + e.destAddend - p else s + e.destAddend, Width(e.relocType))
  }

  lemma WrapIsMod(v: nat, n: nat)
    requires n in {2, 4, 8}
    ensures Wrap(v, n) == v % Span(n)
  {
    SpanValues();
  }

  /** Truncation forgets a reduction modulo 2^64 and is compatible with addition. */
  lemma WrapWord(v: int, n: nat)
    requires n in {2, 4, 8}
    ensures Wrap(v % 0x1_0000_0000_0000_0000, n) == Wrap(v, n)
  {
    if n == 2 {
      ModMod(v, 0x1_0000, 0x1_0000_0000_0000);
    } else if n == 4 {
      ModMod(v, 0x1_0000_0000, 0x1_0000_0000);
    }
  }

  lemma WrapAdd(u: int, v: int, d: int, n: nat)
    requires n in {2, 4, 8} && Wrap(u, n) == Wrap(v, n)
    ensures Wrap(u + d, n) == Wrap(v + d, n)
  {
    if n == 2 {
      ModAdd(u, v, d, 0x1_0000);
    } else if n == 4 {
      ModAdd(u, v, d, 0x1_0000_0000);
    } else {
      ModAdd(u, v, d, 0x1_0000_0000_0000_0000);
    }
  }

  /** Sign extension does not change the field's own bits. */
  lemma LoadKeepsField(raw: seq<byte>, signed: bool)
    requires |raw| in {2, 4, 8}
    ensures Wrap(Load(raw, signed), |raw|) == Wrap(DecodeWord(raw), |raw|) == DecodeWord(raw)
  {
  }

  /** What the live normaliser adds to a loaded field, apart from truncation. */
  function Shift(sm: SegMap, e: Entry): int {
    if IsRelative(e.relocType) then e.offset - e.destAddend - (SegBase(sm, e.destSegment) - sm.textStart)
    else 0 - SegBase(sm, e.destSegment) - e.destAddend
  }

  lemma RebaseIsShift(sm: SegMap, e: Entry, raw: seq<byte>)
    requires sm.textIsLive && !Erased(e) && KnownType(e.relocType) && |raw| == Width(e.relocType)
    ensures Wrap(Rebase(sm, e, Load(raw, IsSigned(e.relocType))), |raw|) == Wrap(DecodeWord(raw) + Shift(sm, e), |raw|)
  {
    hide Wrap, Load;
    var loaded := Load(raw, IsSigned(e.relocType));
    WrapWord(loaded + Shift(sm, e), |raw|);
    LoadKeepsField(raw, IsSigned(e.relocType));
    WrapAdd(loaded, DecodeWord(raw), Shift(sm, e), |raw|);
  }

  lemma WrapTwice(v: int, n: nat)
    requires n in {2, 4, 8}
    ensures Wrap(Wrap(v, n), n) == Wrap(v, n)
  {
  }

  lemma LinkIsShift(sm: SegMap, e: Entry, sym: nat)
    requires !Erased(e) && KnownType(e.relocType)
    ensures LinkValue(sm, e, sym) == Wrap(sym - Shift(sm, e), Width(e.relocType))
  {
    hide Wrap;
  }

  /** Subtracting what the loader added leaves the symbol's offset in its segment. */
  lemma RebaseRecoversSymbol(sm: SegMap, e: Entry, raw: seq<byte>, sym: nat)
    requires sm.textIsLive && !Erased(e) && KnownType(e.relocType) && |raw| == Width(e.relocType)
    requires DecodeWord(raw) == LinkValue(sm, e, sym)
    ensures Wrap(Rebase(sm, e, Load(raw, IsSigned(e.relocType))), |raw|) == Wrap(sym, |raw|)
  {
    hide Wrap, Load, Rebase, LinkValue;
    RebaseIsShift(sm, e, raw);
    LinkIsShift(sm, e, sym);
    WrapTwice(sym - Shift(sm, e), |raw|);
    WrapAdd(DecodeWord(raw), sym - Shift(sm, e), Shift(sm, e), |raw|);
  }

  /** An x86 field of any of the four segments, loaded as S + A - P or S + A, is rebased to the symbol's offset. */
  lemma LoadedFieldRebases(sm: SegMap, e: Entry, raw: seq<byte>, s: int, sym: nat)
    requires sm.textIsLive && |raw| == Width(e.relocType)
    requires match e.destSegment
             case 2 => s == sm.textStart + sym
             case 3 => s == sm.rodataStart + sym
             case 4 => s == sm.dataStart + sym
             case 5 => s == sm.bssStart + sym
             case _ => false
    requires match e.relocType
             case 2 => DecodeWord(raw) == (s + e.destAddend) % 0x1_0000_0000
             case 3 => DecodeWord(raw) == (s + e.destAddend) % 0x1_0000_0000
             case 4 => DecodeWord(raw) == (s + e.destAddend) % 0x1_0000_0000_0000_0000
             case 5 => DecodeWord(raw) == (s + e.destAddend - (sm.textStart + e.offset)) % 0x1_0000_0000
             case 6 => DecodeWord(raw) == (s + e.destAddend - (sm.textStart + e.offset)) % 0x1_0000_0000
             case _ => false
    ensures var v := Rebase(sm, e, Load(raw, IsSigned(e.relocType)));
      if e.relocType == 4 then v % 0x1_0000_0000_0000_0000 == sym % 0x1_0000_0000_0000_0000
      else v % 0x1_0000_0000 == sym % 0x1_0000_0000
  {
    hide Rebase, Load, IsSigned;
    RebaseRecoversSymbol(sm, e, raw, sym);
  }

  /** What is put in place of a field: in the file the destination's offset; nothing where the reference leaves the
      module or the type is not one of the five of x86. */
  lemma OtherFieldsRebase(sm: SegMap, e: Entry, loaded: word64)
    ensures !(2 <= e.destSegment <= 5) || e.relocType >= 7 ==> Rebase(sm, e, loaded) == 0
    ensures 2 <= e.destSegment <= 5 && 2 <= e.relocType <= 6 && !sm.textIsLive ==>
      Rebase(sm, e, loaded) == e.destOffset
  {
  }

  lemma BitOfLabelPart(v: nat, c: nat, k: nat)
    requires c < 32 && k < 32
    ensures Bit((v * Pow2(c)) % 0x1_0000_0000, k) == if k < c then 0 else Bit(v, k - c)
  {
    hide Bit, Pow2;
    Pow2IsSpan(4);
    SpanValues();
    BitOfMod(v * Pow2(c), 32, k);
    BitOfShift(v, c, k);
  }

  lemma {:induction false} ZeroHasNoBit(k: nat)
    ensures Bit(0, k) == 0
  {
    if k > 0 {
      ZeroHasNoBit(k - 1);
    }
  }

  lemma TopOfType(v: nat, k: nat)
    requires v < 32 && 5 <= k
    ensures Bit(v, k) == 0
  {
    assert v / 2 / 2 / 2 / 2 / 2 == 0;
    assert Bit(v, k) == Bit(v / 2, k - 1) == Bit(v / 2 / 2, k - 2) == Bit(v / 2 / 2 / 2, k - 3);
    assert Bit(v / 2 / 2 / 2, k - 3) == Bit(v / 2 / 2 / 2 / 2, k - 4) == Bit(v / 2 / 2 / 2 / 2 / 2, k - 5);
    ZeroHasNoBit(k - 5);
  }

  /** One bit of the label of a 16- or 32-bit field: the value's own, changed by the segment's three bits at the top and
      the type's five below them. */
  lemma LabelBit(over: OversizeShift, e: Entry, v: nat, i: nat)
    requires e.relocType < 32 && Width(e.relocType) in {2, 4} && i < 8 * Width(e.relocType)
    ensures var w := 8 * Width(e.relocType);
      var segment := if 2 <= e.destSegment <= 5 then e.destSegment else 6;
      Bit(Label(over, e, v), i) ==
        (Bit(v, i) + (if i >= w - 3 then Bit(segment, i - (w - 3)) else 0)
                   + (if w - 8 <= i < w - 3 then Bit(e.relocType, i - (w - 8)) else 0)) % 2
  {
    hide Bit, Pow2, Xor, Width;
    var w := 8 * Width(e.relocType);
    var segment := Effective(e.destSegment);
    var a, b := ShiftLeft(over, segment, w - 3), ShiftLeft(over, e.relocType, w - 8);
    BitOfLabelPart(segment, w - 3, i);
    BitOfLabelPart(e.relocType, w - 8, i);
    XorBit(v, a, 64, i);
    XorBit(Xor(v, a, 64), b, 64, i);
    BitBound(v, i);
    BitBound(a, i);
    BitBound(b, i);
    BitBound(Xor(v, a, 64), i);
    BitBound(Label(over, e, v), i);
    if i >= w - 3 {
      TopOfType(e.relocType, i - (w - 8));
    }
  }

  /** The stored bytes of a 16- or 32-bit field: the low ones are the rebased value's; the top one is its, bitwise
      exclusive or segment number times 32 plus type. A 64-bit field has the two labels shifted as the platform does. */
  lemma StoredBytes(sm: SegMap, over: OversizeShift, e: Entry, raw: seq<byte>, k: nat, j: nat)
    requires e.relocType < 32 && KnownType(e.relocType) && |raw| == Width(e.relocType) && k < |raw| && j < 8
    ensures var v := Rebase(sm, e, Load(raw, IsSigned(e.relocType)));
      var stored := NormField(sm, over, e, raw);
      var segment := if 2 <= e.destSegment <= 5 then e.destSegment else 6;
      if |raw| == 8 then stored == Encode(Xor(Xor(v, over(segment, 61), 64), over(e.relocType, 56), 64), 8)
      else
        Bit(stored[k], j) ==
          (Bit(Encode(v, |raw|)[k], j) + (if k == |raw| - 1 && j >= 5 then Bit(segment, j - 5) else 0)
                                       + (if k == |raw| - 1 && j < 5 then Bit(e.relocType, j) else 0)) % 2
  {
    hide Bit, Rebase, Load, Encode, Xor, Pow2;
    var v := Rebase(sm, e, Load(raw, IsSigned(e.relocType)));
    if |raw| != 8 {
      BitOfByte(v, |raw|, k, j);
      BitOfByte(Label(over, e, v), |raw|, k, j);
      LabelBit(over, e, v, 8 * k + j);
    }
  }

  /** Labelling and storing a word keeps exactly the bits that fit the field. */
  lemma LabelAgree(over: OversizeShift, e: Entry, u: nat, v: nat)
    requires KnownType(e.relocType)
    ensures var n := Width(e.relocType);
      Encode(Label(over, e, u), n) == Encode(Label(over, e, v), n) <==> Wrap(u, n) == Wrap(v, n)
  {
    var n := Width(e.relocType);
    var a := ShiftLeft(over, Effective(e.destSegment), 8 * n - WC_RELOC_DEST_SEGMENT_BITS);
    var b := ShiftLeft(over, e.relocType, 8 * n - (WC_RELOC_DEST_SEGMENT_BITS + WC_RELOC_TYPE_BITS));
    hide ShiftLeft, Xor, Pow2, Span, Encode, Wrap, Effective;
    Pow2IsSpan(n);
    XorAgree(u, v, a, 8 * n, 64);
    XorAgree(Xor(u, a, 64), Xor(v, a, 64), b, 8 * n, 64);
    EncodeAgree(Label(over, e, u), Label(over, e, v), n);
    WrapIsMod(u, n);
    WrapIsMod(v, n);
  }

  // ----- Whole texts -----

  /** The two texts agree on every byte of [lo, hi) that no relocation covers. */
  ghost predicate SameOutside(tab: seq<Entry>, lo: nat, hi: nat, s: seq<byte>, t: seq<byte>)
    requires hi <= |s| && hi <= |t|
  {
    forall p: nat :: lo <= p < hi && CoverIndex(tab, lo, |tab|, p) == -1 ==> s[p] == t[p]
  }

  predicate InRange(tab: seq<Entry>, lo: nat, hi: nat, k: nat) {
    k < |tab| - 1 && IsReloc(tab[k]) && lo <= tab[k].offset < hi
  }

  /** `text` is the image loaded as `sm` says: bytes outside relocations are the image's, and every
      reconstructible relocation holds the link value of its symbol. */
  ghost predicate Linked(sm: SegMap, tab: seq<Entry>, lo: nat, hi: nat, image: seq<byte>, syms: seq<nat>,
                         text: seq<byte>)
    requires hi <= |text| == |image| && |syms| == |tab|
  {
    && SameOutside(tab, lo, hi, image, text)
    && forall k: nat ::
         InRange(tab, lo, hi, k) && !Erased(tab[k]) && KnownType(tab[k].relocType) && FieldEnd(tab[k]) <= hi ==>
         DecodeWord(text[tab[k].offset..FieldEnd(tab[k])]) == LinkValue(sm, tab[k], syms[k])
  }

  /** The normalised field of `e` in a text. */
  function FieldOf(sm: SegMap, over: OversizeShift, e: Entry, text: seq<byte>): seq<byte>
    requires KnownType(e.relocType) && FieldEnd(e) <= |text|
  {
    NormField(sm, over, e, text[e.offset..FieldEnd(e)])
  }

  /** Texts normalise alike when they agree outside relocations and their normalised fields agree. */
  lemma NormTextAgree(sm: SegMap, text: seq<byte>, sm': SegMap, text': seq<byte>,
                      over: OversizeShift, tab: seq<Entry>, lo: nat, hi: nat)
    requires WellFormed(tab) && lo <= hi <= |text| && hi <= |text'| && !StraddlesEnd(tab, lo, hi)
    requires SameOutside(tab, lo, hi, text, text')
    requires forall k: nat :: InRange(tab, lo, hi, k) ==>
      FieldOf(sm, over, tab[k], text) == FieldOf(sm', over, tab[k], text')
    ensures NormText(sm, over, tab, text, lo, hi) == NormText(sm', over, tab, text', lo, hi)
  {
    hide NormField;
    var n, n' := NormText(sm, over, tab, text, lo, hi), NormText(sm', over, tab, text', lo, hi);
    forall q | 0 <= q < hi - lo ensures n[q] == n'[q] {
      var k := CoverIndex(tab, lo, |tab|, lo + q);
      if k != -1 {
        assert InRange(tab, lo, hi, k);
      }
    }
  }

  /** The normal form of a loaded field is a function of its table entry and its symbol offset. */
  function SymbolField(over: OversizeShift, e: Entry, sym: nat): seq<byte>
    requires KnownType(e.relocType)
  {
    Encode(Label(over, e, if Erased(e) then 0 else sym), Width(e.relocType))
  }

  lemma FieldIsSymbol(sm: SegMap, tab: seq<Entry>, over: OversizeShift, lo: nat, hi: nat,
                      image: seq<byte>, syms: seq<nat>, text: seq<byte>, k: nat)
    requires WellFormed(tab) && |syms| == |tab| && hi <= |text| == |image| && !StraddlesEnd(tab, lo, hi)
    requires sm.textIsLive && Linked(sm, tab, lo, hi, image, syms, text) && InRange(tab, lo, hi, k)
    ensures FieldOf(sm, over, tab[k], text) == SymbolField(over, tab[k], syms[k])
  {
    hide Wrap, Load, Label, LinkValue;
    var e := tab[k];
    var raw := text[e.offset..FieldEnd(e)];
    if !Erased(e) {
      hide Rebase;
      RebaseRecoversSymbol(sm, e, raw, syms[k]);
      LabelAgree(over, e, Rebase(sm, e, Load(raw, IsSigned(e.relocType))), syms[k]);
    }
  }

  /** Load-address independence: two placements of the same module, two loaded texts, one normal form. */
  lemma LoadAddressIndependence(sm: SegMap, text: seq<byte>, sm': SegMap, text': seq<byte>, image: seq<byte>,
                                syms: seq<nat>,
                                over: OversizeShift, tab: seq<Entry>, lo: nat, hi: nat)
    requires WellFormed(tab) && |syms| == |tab| && lo <= hi <= |image| && !StraddlesEnd(tab, lo, hi)
    requires |text| == |text'| == |image|
    requires sm.textIsLive && Linked(sm, tab, lo, hi, image, syms, text)
    requires sm'.textIsLive && Linked(sm', tab, lo, hi, image, syms, text')
    ensures NormText(sm, over, tab, text, lo, hi) == NormText(sm', over, tab, text', lo, hi)
  {
    hide NormField, NormText, Wrap, Rebase, Label, Load, LinkValue;
    forall k: nat | InRange(tab, lo, hi, k)
      ensures FieldOf(sm, over, tab[k], text) == FieldOf(sm', over, tab[k], text')
    {
      FieldIsSymbol(sm, tab, over, lo, hi, image, syms, text, k);
      FieldIsSymbol(sm', tab, over, lo, hi, image, syms, text', k);
    }
    NormTextAgree(sm, text, sm', text', over, tab, lo, hi);
  }

  /** The offline computation on an unrelocated file agrees with every loaded text
      when the table's destination offsets are the symbols' segment offsets. */
  lemma OfflineEqualsLive(sm: SegMap, text: seq<byte>, off: SegMap, file: seq<byte>, image: seq<byte>, syms: seq<nat>,
                          over: OversizeShift, tab: seq<Entry>, lo: nat, hi: nat)
    requires WellFormed(tab) && |syms| == |tab| && lo <= hi <= |image| && !StraddlesEnd(tab, lo, hi)
    requires |text| == |file| == |image|
    requires sm.textIsLive && Linked(sm, tab, lo, hi, image, syms, text)
    requires !off.textIsLive && SameOutside(tab, lo, hi, image, file)
    requires forall k: nat :: InRange(tab, lo, hi, k) ==> tab[k].destOffset == syms[k]
    ensures NormText(sm, over, tab, text, lo, hi) == NormText(off, over, tab, file, lo, hi)
  {
    hide NormText, Label, Load, LinkValue;
    forall k: nat | InRange(tab, lo, hi, k)
      ensures FieldOf(sm, over, tab[k], text) == FieldOf(off, over, tab[k], file)
    {
      FieldIsSymbol(sm, tab, over, lo, hi, image, syms, text, k);
    }
    NormTextAgree(sm, text, off, file, over, tab, lo, hi);
  }

  // ----- What the normal form can and cannot tell apart -----

  /** Byte `p` lies in a field that is blanked. */
  ghost predicate InErasedField(tab: seq<Entry>, lo: nat, p: nat) {
    var k := CoverIndex(tab, lo, |tab|, p);
    k != -1 && Erased(tab[k])
  }

  lemma ErasedFieldsAgree(sm: SegMap, over: OversizeShift, e: Entry, text: seq<byte>, text': seq<byte>)
    requires KnownType(e.relocType) && FieldEnd(e) <= |text| && FieldEnd(e) <= |text'| && Erased(e)
    ensures FieldOf(sm, over, e, text) == FieldOf(sm, over, e, text')
  {
    hide Label, Load;
  }

  /** Only entry `k` covers the bytes of its field. */
  lemma WholeFieldVisible(tab: seq<Entry>, lo: nat, hi: nat, k: nat)
    requires WellFormed(tab) && InRange(tab, lo, hi, k)
    ensures forall p: nat :: tab[k].offset <= p < FieldEnd(tab[k]) ==> CoverIndex(tab, lo, |tab|, p) == k
  {
    forall p: nat | tab[k].offset <= p < FieldEnd(tab[k]) ensures CoverIndex(tab, lo, |tab|, p) == k {
      assert Covers(tab, lo, k, p);
    }
  }

  /** The normal form shows a field's bytes at the field's place. */
  lemma FieldByte(sm: SegMap, over: OversizeShift, tab: seq<Entry>, text: seq<byte>, lo: nat, hi: nat, k: nat, j: nat)
    requires WellFormed(tab) && lo <= hi <= |text| && !StraddlesEnd(tab, lo, hi) && InRange(tab, lo, hi, k)
    requires j < Width(tab[k].relocType)
    ensures FieldEnd(tab[k]) <= hi
    ensures NormText(sm, over, tab, text, lo, hi)[tab[k].offset + j - lo] == FieldOf(sm, over, tab[k], text)[j]
  {
    hide NormField;
    WholeFieldVisible(tab, lo, hi, k);
    var p := tab[k].offset + j;
    assert NormText(sm, over, tab, text, lo, hi)[p - lo] == NormByte(sm, over, tab, text, lo, lo + (p - lo));
  }

  lemma DecodeInjective(raw: seq<byte>, raw': seq<byte>)
    requires |raw| == |raw'| && DecodeWord(raw) == DecodeWord(raw')
    ensures raw == raw'
  {
    EncodeDecode(raw);
    EncodeDecode(raw');
  }

  /** A reconstructible field can be read back from its normal form. */
  lemma FieldInjective(sm: SegMap, over: OversizeShift, e: Entry, raw: seq<byte>, raw': seq<byte>)
    requires sm.textIsLive && !Erased(e) && KnownType(e.relocType) && |raw| == |raw'| == Width(e.relocType)
    requires NormField(sm, over, e, raw) == NormField(sm, over, e, raw')
    ensures raw == raw'
  {
    hide Label, Load, Rebase, Wrap, Shift, Erased, Encode, Decode, DecodeWord;
    var n, signed := |raw|, IsSigned(e.relocType);
    LabelAgree(over, e, Rebase(sm, e, Load(raw, signed)), Rebase(sm, e, Load(raw', signed)));
    RebaseIsShift(sm, e, raw);
    RebaseIsShift(sm, e, raw');
    WrapAdd(DecodeWord(raw) + Shift(sm, e), DecodeWord(raw') + Shift(sm, e), -Shift(sm, e), n);
    LoadKeepsField(raw, signed);
    LoadKeepsField(raw', signed);
    DecodeInjective(raw, raw');
  }

  lemma EqualBytesEqualFields(sm: SegMap, over: OversizeShift, tab: seq<Entry>, text: seq<byte>, text': seq<byte>,
                              lo: nat, hi: nat, k: nat)
    requires WellFormed(tab) && lo <= hi <= |text| && hi <= |text'| && !StraddlesEnd(tab, lo, hi)
    requires sm.textIsLive && InRange(tab, lo, hi, k) && !Erased(tab[k])
    requires NormText(sm, over, tab, text, lo, hi) == NormText(sm, over, tab, text', lo, hi)
    ensures forall p: nat :: tab[k].offset <= p < FieldEnd(tab[k]) ==> text[p] == text'[p]
  {
    hide NormField, Erased, NormText, WellFormed;
    var e := tab[k];
    if Width(e.relocType) == 0 {
      return;
    }
    FieldByte(sm, over, tab, text, lo, hi, k, 0);
    var f, f' := FieldOf(sm, over, e, text), FieldOf(sm, over, e, text');
    forall j | 0 <= j < |f| ensures f[j] == f'[j] {
      FieldByte(sm, over, tab, text, lo, hi, k, j);
      FieldByte(sm, over, tab, text', lo, hi, k, j);
    }
    assert f == f';
    var raw, raw' := text[e.offset..FieldEnd(e)], text'[e.offset..FieldEnd(e)];
    FieldInjective(sm, over, e, raw, raw');
    forall p: nat | e.offset <= p < FieldEnd(e) ensures text[p] == text'[p] {
      assert raw[p - e.offset] == raw'[p - e.offset];
    }
  }

  /** Live texts under one placement have the same normal form exactly if they agree on every byte
      outside the blanked fields: the hash sees any other change. */
  lemma NormTextTellsApart(sm: SegMap, over: OversizeShift, tab: seq<Entry>, text: seq<byte>, text': seq<byte>,
                           lo: nat, hi: nat)
    requires WellFormed(tab) && lo <= hi <= |text| && hi <= |text'| && !StraddlesEnd(tab, lo, hi)
    requires sm.textIsLive
    ensures NormText(sm, over, tab, text, lo, hi) == NormText(sm, over, tab, text', lo, hi)
       <==> forall p: nat :: lo <= p < hi && !InErasedField(tab, lo, p) ==> text[p] == text'[p]
  {
    hide NormField, Erased;
    var n, n' := NormText(sm, over, tab, text, lo, hi), NormText(sm, over, tab, text', lo, hi);
    if forall p: nat :: lo <= p < hi && !InErasedField(tab, lo, p) ==> text[p] == text'[p] {
      forall k: nat | InRange(tab, lo, hi, k)
        ensures FieldOf(sm, over, tab[k], text) == FieldOf(sm, over, tab[k], text')
      {
        if Erased(tab[k]) {
          ErasedFieldsAgree(sm, over, tab[k], text, text');
        } else {
          WholeFieldVisible(tab, lo, hi, k);
          assert text[tab[k].offset..FieldEnd(tab[k])] == text'[tab[k].offset..FieldEnd(tab[k])];
        }
      }
      NormTextAgree(sm, text, sm, text', over, tab, lo, hi);
    }
    if n == n' {
      forall p: nat | lo <= p < hi && !InErasedField(tab, lo, p) ensures text[p] == text'[p] {
        assert n[p - lo] == n'[p - lo];
        assert lo + (p - lo) == p;
        var k := CoverIndex(tab, lo, |tab|, p);
        if k != -1 {
          EqualBytesEqualFields(sm, over, tab, text, text', lo, hi, k);
        }
      }
    }
  }
}
