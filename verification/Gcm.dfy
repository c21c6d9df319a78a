/** Galois/counter mode over scatter/gather buffers. */
module Gcm {
  import opened Common
  import opened Words
  import opened Cursors
  import opened Cbc

  /** One key and nonce: the keystream, and the tag of authenticated data and ciphertext. */
  datatype Mode = Mode(stream: nat -> byte, tag: (seq<byte>, seq<byte>) -> Block)

  /** Exclusive or with the keystream from position `at` on. */
  function Apply(m: Mode, at: nat, data: seq<byte>): (r: seq<byte>)
    ensures |r| == |data|
    decreases |data|
  {
    if data == [] then [] else [XorByte(data[0], m.stream(at))] + Apply(m, at + 1, data[1..])
  }

  lemma {:induction false} ApplySplit(m: Mode, at: nat, a: seq<byte>, b: seq<byte>)
    ensures Apply(m, at, a + b) == Apply(m, at, a) + Apply(m, at + |a|, b)
    decreases |a|
  {
    hide XorByte;
    if a == [] {
      assert a + b == b;
    } else {
      ApplySplit(m, at + 1, a[1..], b);
      assert (a + b)[1..] == a[1..] + b;
    }
  }

  lemma {:induction false} ApplyTwice(m: Mode, at: nat, data: seq<byte>)
    ensures Apply(m, at, Apply(m, at, data)) == data
    decreases |data|
  {
    hide XorByte;
    if data != [] {
      ApplyTwice(m, at + 1, data[1..]);
      XorByteTwice(data[0], m.stream(at));
      assert Apply(m, at, data)[1..] == Apply(m, at + 1, data[1..]);
    }
  }

  /** Byte by byte: bitwise exclusive or with the keystream at the byte's position. */
  lemma {:induction false} ApplyAt(m: Mode, at: nat, data: seq<byte>, k: nat, j: nat)
    requires k < |data| && j < 8
    ensures Bit(Apply(m, at, data)[k], j) == 1 <==> Bit(data[k], j) != Bit(m.stream(at + k), j)
    decreases k
  {
    hide Bit, Xor;
    if k > 0 {
      ApplyAt(m, at + 1, data[1..], k - 1, j);
    } else {
      XorBit(data[0], m.stream(at), 8, j);
    }
  }

  /** The ciphertext side of `text`, which is what the tag is computed over. */
  function CipherText(encrypt: bool, m: Mode, text: seq<byte>): seq<byte> {
    if encrypt then Apply(m, 0, text) else text
  }

  /** The streaming state: the authenticated data and the payload fed so far, in the order fed. */
  class AesGcm {
    const mode: Mode
    var aad: seq<byte>
    var fed: seq<byte>

    constructor (mode: Mode)
      ensures this.mode == mode && aad == [] && fed == []
    {
      this.mode, aad, fed := mode, [], [];
    }

    method FeedAad(data: seq<byte>)
      modifies this
      ensures aad == old(aad) + data && fed == old(fed)
    {
      aad := aad + data;
    }

    method FeedPayload(data: seq<byte>) returns (out: seq<byte>)
      modifies this
      ensures aad == old(aad) && fed == old(fed) + data
      ensures out == Apply(mode, |old(fed)|, data)
    {
      out := Apply(mode, |fed|, data);
      fed := fed + data;
    }

    method Tag(encrypt: bool) returns (tag: Block)
      ensures tag == mode.tag(aad, CipherText(encrypt, mode, fed))
    {
      tag := mode.tag(aad, CipherText(encrypt, mode, fed));
    }
  }

  // ----- Pieces -----

  predicate Stands(lens: seq<nat>, cc: Ptr, addr: nat) {
    IsCursor(lens, cc) && Addr(lens, cc) == addr
  }

  lemma AtCursor(lens: seq<nat>, cc: Ptr, seg: Ptr, len: nat, addr: nat)
    requires At(lens, cc, seg, len, addr)
    ensures Stands(lens, cc, addr)
  {
  }

  lemma MinBounds(a: nat, b: nat, c: nat)
    ensures var n := Min(a, Min(b, c)); n <= a && n <= b && n <= c && (a > 0 && b > 0 && c > 0 ==> n > 0)
  {
  }

  predicate Reach(lens: seq<nat>, cc: Ptr, n: nat) { IsCursor(lens, cc) && n <= Left(lens, cc) }

  /** Never zero before the end of the buffer: no segment is empty. */
  method SegmentLength(buf: CryptoBuffer, cc: Ptr, ghost addr: nat) returns (len: nat)
    requires buf.Valid() && Stands(buf.lens, cc, addr) && addr < |buf.data|
    ensures 0 < len && addr + len <= |buf.data| && Reach(buf.lens, cc, len)
  {
    AddrInside(buf.lens, cc);
    len := Left(buf.lens, cc);
  }

  method TakeExactly(buf: CryptoBuffer, cc: Ptr, n: nat, ghost addr: nat) returns (piece: seq<byte>, cc': Ptr)
    requires buf.Valid() && Stands(buf.lens, cc, addr) && addr + n <= |buf.data|
    requires n > 0 && exists len :: n <= len && Reach(buf.lens, cc, len)
    ensures piece == Slice(buf.data, addr, n) && Stands(buf.lens, cc', addr + n)
  {
    AdvanceAddr(buf.lens, cc, n);
    piece := buf.ReadSegment(cc, n);
    cc' := Advance(buf.lens, cc, n);
  }

  method TakeSegment(buf: CryptoBuffer, cc: Ptr, left: nat, ghost addr: nat) returns (piece: seq<byte>, cc': Ptr)
    requires buf.Valid() && Stands(buf.lens, cc, addr) && 0 < left && addr + left <= |buf.data|
    ensures 0 < |piece| <= left && piece == Slice(buf.data, addr, |piece|) && Stands(buf.lens, cc', addr + |piece|)
  {
    var len := SegmentLength(buf, cc, addr);
    piece, cc' := TakeExactly(buf, cc, Min(left, len), addr);
  }

  method StoreExactly(buf: CryptoBuffer, cc: Ptr, piece: seq<byte>, ghost addr: nat) returns (cc': Ptr)
    requires buf.Valid() && Stands(buf.lens, cc, addr) && addr + |piece| <= |buf.data|
    requires |piece| > 0 && exists len :: |piece| <= len && Reach(buf.lens, cc, len)
    modifies buf
    ensures buf.Valid() && buf.data == Overwrite(old(buf.data), addr, piece) && Stands(buf.lens, cc', addr + |piece|)
  {
    AdvanceAddr(buf.lens, cc, |piece|);
    buf.WriteSegment(cc, piece);
    cc' := Advance(buf.lens, cc, |piece|);
  }

  method WriteTag(buf: CryptoBuffer, at: nat, tag: Block)
    requires buf.Valid() && at + 16 <= |buf.data|
    modifies buf
    ensures buf.Valid() && buf.data == Overwrite(old(buf.data), at, tag)
  {
    var cc, seg, len := OpenAt(buf, at);
    cc := buf.CopyBack(cc, tag);
  }

  method ReadTag(buf: CryptoBuffer, at: nat) returns (tag: seq<byte>)
    requires buf.Valid() && at + 16 <= |buf.data|
    ensures tag == Slice(buf.data, at, 16)
  {
    var cc, seg, len := OpenAt(buf, at);
    tag, cc := buf.CopyData(cc, 16);
  }

  // ----- The data -----

  lemma EmptySlice(s: seq<byte>, data: seq<byte>, start: nat)
    requires start <= |data|
    ensures s == s + Slice(data, start, 0)
  {
  }

  lemma JoinSlices(s: seq<byte>, data: seq<byte>, start: nat, done: nat, n: nat)
    requires start + done + n <= |data|
    ensures (s + Slice(data, start, done)) + Slice(data, start + done, n) == s + Slice(data, start, done + n)
  {
    assert Slice(data, start, done + n) == Slice(data, start, done) + Slice(data, start + done, n);
  }

  /** Where the authenticated data is: given apart, or in the input buffer. */
  datatype Aad = Apart(bytes: seq<byte>) | InBuffer(start: nat, n: nat)

  ghost function AadBytes(aad: Aad, data: seq<byte>): seq<byte>
    requires aad.InBuffer? ==> aad.start + aad.n <= |data|
  {
    match aad
    case Apart(bytes) => bytes
    case InBuffer(start, n) => Slice(data, start, n)
  }

  lemma AadFed(aad: Aad, data: seq<byte>, fed: seq<byte>)
    requires aad.InBuffer? ==> aad.start + aad.n <= |data|
    requires fed == [] + (match aad case Apart(bytes) => bytes case InBuffer(start, n) => Slice(data, start, n))
    ensures fed == AadBytes(aad, data)
  {
  }

  /** The 16 bytes of a digest lie outside [from, from + n). */
  predicate DigestOutside(digestAt: nat, from: nat, n: nat) {
    digestAt + 16 <= from || from + n <= digestAt
  }

  lemma SliceApart(data: seq<byte>, at: nat, b: seq<byte>, digestAt: nat)
    requires at + |b| <= |data| && digestAt + 16 <= |data| && DigestOutside(digestAt, at, |b|)
    ensures |Overwrite(data, at, b)| == |data|
    ensures Slice(Overwrite(data, at, b), digestAt, 16) == Slice(data, digestAt, 16)
  {
  }

  /** After `done` bytes: that much was fed, in order; its image is written; the rest of the input is intact. */
  ghost predicate StreamAt(m: Mode, text: seq<byte>, done: nat, inData: seq<byte>, inStart: nat,
                           outData: seq<byte>, before: seq<byte>, start: nat, fed: seq<byte>) {
    && done <= |text| && inStart + |text| <= |inData| && start + |text| <= |before|
    && inData[inStart + done..inStart + |text|] == text[done..]
    && fed == text[..done]
    && outData == Overwrite(before, start, Apply(m, 0, text[..done]))
  }

  lemma StartStream(m: Mode, text: seq<byte>, inData: seq<byte>, inStart: nat, before: seq<byte>, start: nat)
    requires inStart + |text| <= |inData| && start + |text| <= |before| && text == Slice(inData, inStart, |text|)
    ensures StreamAt(m, text, 0, inData, inStart, before, before, start, [])
  {
  }

  lemma StreamDone(m: Mode, text: seq<byte>, inData: seq<byte>, inStart: nat, outData: seq<byte>, before: seq<byte>,
                   start: nat, fed: seq<byte>)
    requires StreamAt(m, text, |text|, inData, inStart, outData, before, start, fed)
    ensures fed == text && outData == Overwrite(before, start, Apply(m, 0, text))
  {
    assert text[..|text|] == text;
  }

  lemma StreamStep(m: Mode, text: seq<byte>, done: nat, n: nat, inData: seq<byte>, inStart: nat,
                   outData: seq<byte>, before: seq<byte>, start: nat, fed: seq<byte>, inPlace: bool)
    requires StreamAt(m, text, done, inData, inStart, outData, before, start, fed) && done + n <= |text|
    requires inPlace ==> inData == outData && inStart == start
    ensures |fed| == done && start + done + n <= |outData| && Slice(inData, inStart + done, n) == Slice(text, done, n)
    ensures var piece := Apply(m, |fed|, Slice(text, done, n));
      var outData' := Overwrite(outData, start + done, piece);
      StreamAt(m, text, done + n, if inPlace then outData' else inData, inStart, outData', before, start,
               fed + Slice(text, done, n))
  {
    hide Apply, Overwrite;
    var piece := Apply(m, done, Slice(text, done, n));
    assert text[..done + n] == text[..done] + Slice(text, done, n);
    ApplySplit(m, 0, text[..done], Slice(text, done, n));
    OverwriteTwice(before, start, Apply(m, 0, text[..done]), piece);
    SubSlice(inData, inStart, |text|, text, done, n);
    RestUnread(inData, inStart, |text|, text, done, n, piece);
  }

  // ----- The walks -----

  /** Feeds `n` bytes of authenticated data found in the buffer from `start` on, segment by segment. */
  method FeedAadFrom(aes: AesGcm, buf: CryptoBuffer, start: nat, n: nat)
    requires buf.Valid() && start + n <= |buf.data|
    modifies aes
    ensures aes.aad == old(aes.aad) + Slice(buf.data, start, n) && aes.fed == old(aes.fed)
  {
    hide *;
    var cc, seg, len := OpenAt(buf, start);
    AtCursor(buf.lens, cc, seg, len, start);
    var left := n;
    EmptySlice(old(aes.aad), buf.data, start);
    while left > 0
      invariant 0 <= left <= n && buf.Valid() && aes.fed == old(aes.fed)
      invariant Stands(buf.lens, cc, start + (n - left))
      invariant aes.aad == old(aes.aad) + Slice(buf.data, start, n - left)
    {
      ghost var done := n - left;
      var piece;
      piece, cc := TakeSegment(buf, cc, left, start + done);
      JoinSlices(old(aes.aad), buf.data, start, done, |piece|);
      aes.FeedAad(piece);
      left := left - |piece|;
    }
  }

  /** Encrypts or decrypts `payload` bytes from `inBuf` into `outBuf`, or in place when there is none. */
  method FeedPayloadFrom(aes: AesGcm, inBuf: CryptoBuffer, inStart: nat, payload: nat, outBuf: CryptoBuffer?,
                         outStart: nat)
    requires inBuf.Valid() && inStart + payload <= |inBuf.data|
    requires outBuf != null ==> outBuf != inBuf && outBuf.Valid() && outStart + payload <= |outBuf.data|
    requires aes.fed == []
    modifies aes, if outBuf == null then inBuf else outBuf
    ensures inBuf.Valid() && (outBuf != null ==> outBuf.Valid() && inBuf.data == old(inBuf.data))
    ensures aes.aad == old(aes.aad) && aes.fed == Slice(old(inBuf.data), inStart, payload)
    ensures var result := Apply(aes.mode, 0, Slice(old(inBuf.data), inStart, payload));
      if outBuf == null then inBuf.data == Overwrite(old(inBuf.data), inStart, result)
      else outBuf.data == Overwrite(old(outBuf.data), outStart, result)
  {
    hide *;
    var out, start := inBuf, inStart;
    if outBuf != null {
      out, start := outBuf, outStart;
    }
    ghost var text, before := Slice(inBuf.data, inStart, payload), out.data;
    var ccIn, inSeg, inLen := OpenAt(inBuf, inStart);
    var ccOut, outSeg, outLen := OpenAt(out, start);
    AtCursor(inBuf.lens, ccIn, inSeg, inLen, inStart);
    AtCursor(out.lens, ccOut, outSeg, outLen, start);
    StartStream(aes.mode, text, inBuf.data, inStart, before, start);
    var left := payload;
    while left > 0
      invariant 0 <= left <= payload && inBuf.Valid() && out.Valid()
      invariant |inBuf.data| == |old(inBuf.data)| && |out.data| == |before|
      invariant Stands(inBuf.lens, ccIn, inStart + (payload - left))
      invariant Stands(out.lens, ccOut, start + (payload - left))
      invariant StreamAt(aes.mode, text, payload - left, inBuf.data, inStart, out.data, before, start, aes.fed)
      invariant aes.aad == old(aes.aad)
      invariant outBuf != null ==> inBuf.data == old(inBuf.data)
    {
      ghost var done := payload - left;
      inLen := SegmentLength(inBuf, ccIn, inStart + done);
      outLen := SegmentLength(out, ccOut, start + done);
      var n := Min(left, Min(inLen, outLen));
      MinBounds(left, inLen, outLen);
      ghost var inData, outData, fed := inBuf.data, out.data, aes.fed;
      StreamStep(aes.mode, text, done, n, inData, inStart, outData, before, start, fed, outBuf == null);
      var piece;
      piece, ccIn := TakeExactly(inBuf, ccIn, n, inStart + done);
      piece := aes.FeedPayload(piece);
      ccOut := StoreExactly(out, ccOut, piece, start + done);
      assert inBuf.data == if outBuf == null then out.data else inData;
      left := left - n;
    }
    StreamDone(aes.mode, text, inBuf.data, inStart, out.data, before, start, aes.fed);
  }

  // ----- The call -----

  datatype Result = Done | Invalid | BadMessage

  /** Encryption writes the ciphertext and its tag; decryption writes the plaintext and compares the tag.
      Only the bytes count, never the cuts. */
  method GcmWork(isGcm: bool, encrypt: bool, mode: Mode, inBuf: CryptoBuffer, inStart: nat, payload: nat, aad: Aad,
                 outBuf: CryptoBuffer?, outStart: nat, digestAt: nat) returns (result: Result)
    requires inBuf.Valid() && inStart + payload <= |inBuf.data|
    requires aad.InBuffer? ==> aad.start + aad.n <= |inBuf.data|
    requires outBuf != null ==> outBuf != inBuf && outBuf.Valid() && outStart + payload <= |outBuf.data|
    requires digestAt + 16 <= |(if outBuf == null || !encrypt then inBuf else outBuf).data|
    modifies if outBuf == null then inBuf else outBuf
    ensures result == Invalid <==> !isGcm
    ensures !isGcm ==> inBuf.data == old(inBuf.data) && (outBuf != null ==> outBuf.data == old(outBuf.data))
    ensures isGcm ==> inBuf.Valid() && (outBuf != null ==> outBuf.Valid())
    ensures isGcm ==>
      var text := Slice(old(inBuf.data), inStart, payload);
      var tag := mode.tag(AadBytes(aad, old(inBuf.data)), CipherText(encrypt, mode, text));
      var was := if outBuf == null then old(inBuf.data) else old(outBuf.data);
      var at := if outBuf == null then inStart else outStart;
      var now := if outBuf == null then inBuf.data else outBuf.data;
      if encrypt then result == Done && now == Overwrite(Overwrite(was, at, Apply(mode, 0, text)), digestAt, tag)
      else (now == Overwrite(was, at, Apply(mode, 0, text))
            && |inBuf.data| == |old(inBuf.data)|
            && (result == Done <==> Slice(inBuf.data, digestAt, 16) == tag))
  {
    hide *;
    if !isGcm {
      return Invalid;
    }
    var aes := new AesGcm(mode);
    match aad {
      case Apart(bytes) => aes.FeedAad(bytes);
      case InBuffer(start, n) => FeedAadFrom(aes, inBuf, start, n);
    }
    AadFed(aad, inBuf.data, aes.aad);
    FeedPayloadFrom(aes, inBuf, inStart, payload, outBuf, outStart);
    var tag := aes.Tag(encrypt);
    if encrypt {
      var out := if outBuf == null then inBuf else outBuf;
      WriteTag(out, digestAt, tag);
      return Done;
    }
    var stored := ReadTag(inBuf, digestAt);
    return if stored == tag then Done else BadMessage;
  }

  /** What encryption wrote, decryption accepts and turns back, with the same authenticated data. */
  lemma DecryptionAccepts(mode: Mode, text: seq<byte>, aad: seq<byte>)
    ensures var secret := Apply(mode, 0, text);
      mode.tag(aad, CipherText(false, mode, secret)) == mode.tag(aad, CipherText(true, mode, text))
      && Apply(mode, 0, secret) == text
  {
    ApplyTwice(mode, 0, text);
  }

  lemma AadApart(aad: seq<byte>, data: seq<byte>)
    ensures AadBytes(Apart(aad), data) == aad
  {
  }

  lemma KeptApart(data: seq<byte>, at: nat, n: nat, digestAt: nat, tag: Block)
    requires at + n <= |data| && digestAt + 16 <= |data| && DigestOutside(digestAt, at, n)
    ensures Slice(Overwrite(data, digestAt, tag), at, n) == Slice(data, at, n)
  {
  }

  lemma SealedAndTagged(data: seq<byte>, at: nat, sealed: seq<byte>, digestAt: nat, tag: Block)
    requires at + |sealed| <= |data| && digestAt + 16 <= |data| && DigestOutside(digestAt, at, |sealed|)
    ensures var now := Overwrite(Overwrite(data, at, sealed), digestAt, tag);
      |now| == |data| && Slice(now, at, |sealed|) == sealed && Slice(now, digestAt, 16) == tag
  {
    hide Overwrite, Slice;
    var written := Overwrite(data, at, sealed);
    SliceOfOverwrite(data, at, sealed);
    KeptApart(written, at, |sealed|, digestAt, tag);
    SliceOfOverwrite(written, digestAt, tag);
  }

  /** Encrypting from one buffer into a second, tag included, and decrypting from there into a third: the tag is
      accepted and the text is back, however differently the three are cut. */
  method SealThenOpen(mode: Mode, aad: seq<byte>, plain: CryptoBuffer, secret: CryptoBuffer, back: CryptoBuffer,
                      plainAt: nat, secretAt: nat, backAt: nat, n: nat, digestAt: nat) returns (result: Result)
    requires plain != secret && secret != back && plain != back
    requires plain.Valid() && plainAt + n <= |plain.data|
    requires secret.Valid() && secretAt + n <= |secret.data| && digestAt + 16 <= |secret.data|
    requires back.Valid() && backAt + n <= |back.data|
    requires DigestOutside(digestAt, secretAt, n)
    modifies secret, back
    ensures result == Done && |back.data| == |old(back.data)|
    ensures Slice(back.data, backAt, n) == Slice(old(plain.data), plainAt, n)
  {
    hide *;
    ghost var text := Slice(plain.data, plainAt, n);
    ghost var sealed := Apply(mode, 0, text);
    ghost var tag := mode.tag(aad, CipherText(true, mode, text));
    AadApart(aad, plain.data);
    result := GcmWork(true, true, mode, plain, plainAt, n, Apart(aad), secret, secretAt, digestAt);
    SealedAndTagged(old(secret.data), secretAt, sealed, digestAt, tag);
    AadApart(aad, secret.data);
    result := GcmWork(true, false, mode, secret, secretAt, n, Apart(aad), back, backAt, digestAt);
    DecryptionAccepts(mode, text, aad);
    SliceOfOverwrite(old(back.data), backAt, text);
  }

  lemma OverwriteSwap(data: seq<byte>, at: nat, a: seq<byte>, digestAt: nat, tag: Block)
    requires at + |a| <= |data| && digestAt + 16 <= |data| && DigestOutside(digestAt, at, |a|)
    ensures Overwrite(Overwrite(data, at, a), digestAt, tag) == Overwrite(Overwrite(data, digestAt, tag), at, a)
  {
    hide Overwrite;
    var one, other := Overwrite(data, at, a), Overwrite(data, digestAt, tag);
    forall k | 0 <= k < |data| ensures Overwrite(one, digestAt, tag)[k] == Overwrite(other, at, a)[k] {
      OverwriteAt(data, at, a, k);
      OverwriteAt(data, digestAt, tag, k);
      OverwriteAt(one, digestAt, tag, k);
      OverwriteAt(other, at, a, k);
    }
  }

  lemma OpenedAgain(data: seq<byte>, at: nat, sealed: seq<byte>, digestAt: nat, tag: Block)
    requires at + |sealed| <= |data| && digestAt + 16 <= |data| && DigestOutside(digestAt, at, |sealed|)
    ensures var now := Overwrite(Overwrite(data, at, sealed), digestAt, tag);
      |now| == |data| && Overwrite(now, at, Slice(data, at, |sealed|)) == Overwrite(data, digestAt, tag)
  {
    hide Overwrite;
    OverwriteSwap(data, at, sealed, digestAt, tag);
    var tagged := Overwrite(data, digestAt, tag);
    KeptApart(data, at, |sealed|, digestAt, tag);
    OverwriteBack(tagged, at, sealed);
  }

  lemma SealedText(mode: Mode, text: seq<byte>)
    ensures CipherText(true, mode, text) == Apply(mode, 0, text)
  {
    hide Apply;
  }

  /** The same in place: afterwards only the tag is new. */
  method SealThenOpenInPlace(mode: Mode, aad: seq<byte>, b: CryptoBuffer, at: nat, n: nat, digestAt: nat)
      returns (result: Result)
    requires b.Valid() && at + n <= |b.data| && digestAt + 16 <= |b.data| && DigestOutside(digestAt, at, n)
    modifies b
    ensures result == Done && b.Valid()
    ensures b.data == Overwrite(old(b.data), digestAt, mode.tag(aad, Apply(mode, 0, Slice(old(b.data), at, n))))
  {
    hide *;
    ghost var was, text := b.data, Slice(b.data, at, n);
    ghost var sealed := Apply(mode, 0, text);
    ghost var tag := mode.tag(aad, CipherText(true, mode, text));
    AadApart(aad, b.data);
    result := GcmWork(true, true, mode, b, at, n, Apart(aad), null, 0, digestAt);
    SealedAndTagged(was, at, sealed, digestAt, tag);
    ghost var now := b.data;
    AadApart(aad, b.data);
    result := GcmWork(true, false, mode, b, at, n, Apart(aad), null, 0, digestAt);
    DecryptionAccepts(mode, text, aad);
    SliceApart(now, at, text, digestAt);
    OpenedAgain(was, at, sealed, digestAt, tag);
    SealedText(mode, text);
  }
}
