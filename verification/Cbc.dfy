/** Cipher block chaining over scatter/gather buffers. */
module Cbc {
  import opened Common
  import opened Words
  import opened Cursors

  const ZERO_BLOCK: seq<byte> := [0, 0, 0, 0, 0, 0, 0, 0, 0, 0, 0, 0, 0, 0, 0, 0]

  type Block = b: seq<byte> | |b| == 16 witness ZERO_BLOCK

  /** A keyed block cipher and its inverse. */
  datatype Cipher = Cipher(enc: Block -> Block, dec: Block -> Block)

  ghost predicate IsCipher(c: Cipher) {
    forall b: Block :: c.dec(c.enc(b)) == b
  }

  lemma XorByteBound(a: byte, b: byte)
    ensures Xor(a, b, 8) < 256
  {
    Pow2Of8();
  }

  function XorByte(a: byte, b: byte): byte {
    XorByteBound(a, b);
    Xor(a, b, 8)
  }

  lemma XorByteTwice(a: byte, b: byte)
    ensures XorByte(XorByte(a, b), b) == a
  {
    hide Xor, Pow2;
    Pow2Of8();
    XorInvolution(a, b, 8);
  }

  function XorBytes(a: seq<byte>, b: seq<byte>): (r: seq<byte>)
    requires |a| == |b|
    ensures |r| == |a|
  {
    if a == [] then [] else [XorByte(a[0], b[0])] + XorBytes(a[1..], b[1..])
  }

  lemma {:induction false} XorBytesTwice(a: seq<byte>, b: seq<byte>)
    requires |a| == |b|
    ensures XorBytes(XorBytes(a, b), b) == a
  {
    hide XorByte;
    if a != [] {
      XorByteTwice(a[0], b[0]);
      XorBytesTwice(a[1..], b[1..]);
      assert XorBytes(a, b)[1..] == XorBytes(a[1..], b[1..]);
    }
  }

  // ----- The flat mode -----

  predicate Whole(n: int) { n % 16 == 0 }

  /** A whole number of blocks. */
  predicate Blocks(data: seq<byte>) { Whole(|data|) }

  lemma WholeSum(m: nat, n: nat)
    requires Whole(m) && Whole(n)
    ensures Whole(m + n) && Whole(m - n) && (m > 0 ==> m >= 16)
  {
  }

  function Encrypt(c: Cipher, iv: Block, data: seq<byte>): (r: seq<byte>)
    requires Blocks(data)
    ensures |r| == |data|
    decreases |data|
  {
    if data == [] then []
    else
      var y := c.enc(XorBytes(data[..16], iv));
      y + Encrypt(c, y, data[16..])
  }

  function Decrypt(c: Cipher, iv: Block, data: seq<byte>): (r: seq<byte>)
    requires Blocks(data)
    ensures |r| == |data|
    decreases |data|
  {
    if data == [] then []
    else XorBytes(c.dec(data[..16]), iv) + Decrypt(c, data[..16], data[16..])
  }

  /** The chaining block after ciphertext `ct`. */
  function LastBlock(iv: Block, ct: seq<byte>): Block
    requires Blocks(ct)
  {
    if ct == [] then iv else ct[|ct| - 16..]
  }

  function Crypt(encrypt: bool, c: Cipher, iv: Block, data: seq<byte>): (r: seq<byte>)
    requires Blocks(data)
    ensures |r| == |data|
  {
    if encrypt then Encrypt(c, iv, data) else Decrypt(c, iv, data)
  }

  /** The chaining block after processing `data`. */
  function Chain(encrypt: bool, c: Cipher, iv: Block, data: seq<byte>): Block
    requires Blocks(data)
  {
    LastBlock(iv, if encrypt then Encrypt(c, iv, data) else data)
  }

  lemma {:induction false} DecryptEncrypt(c: Cipher, iv: Block, data: seq<byte>)
    requires IsCipher(c) && Blocks(data)
    ensures Decrypt(c, iv, Encrypt(c, iv, data)) == data
    decreases |data|
  {
    hide XorBytes;
    if data != [] {
      var x: Block := XorBytes(data[..16], iv);
      var y: seq<byte> := c.enc(x);
      var r := Encrypt(c, y, data[16..]);
      assert Encrypt(c, iv, data) == y + r;
      assert (y + r)[..16] == y && (y + r)[16..] == r;
      DecryptEncrypt(c, y, data[16..]);
      XorBytesTwice(data[..16], iv);
      assert data == data[..16] + data[16..];
    }
  }

  // ----- Block by block -----

  /** Block `k` of some data. */
  function BlockAt(data: seq<byte>, k: nat): Block
    requires 16 * (k + 1) <= |data|
  {
    data[16 * k..16 * k + 16]
  }

  /** Bit for bit, `x` has a one exactly where the other two differ. */
  ghost predicate IsXor(x: Block, a: Block, b: Block) {
    forall i, j :: 0 <= i < 16 && 0 <= j < 8 ==> (Bit(x[i], j) == 1 <==> Bit(a[i], j) != Bit(b[i], j))
  }

  lemma {:induction false} XorBytesAt(a: seq<byte>, b: seq<byte>, i: nat)
    requires |a| == |b| && i < |a|
    ensures XorBytes(a, b)[i] == XorByte(a[i], b[i])
  {
    hide XorByte;
    if i > 0 {
      XorBytesAt(a[1..], b[1..], i - 1);
    }
  }

  lemma XorBytesIsXor(a: Block, b: Block)
    ensures IsXor(XorBytes(a, b), a, b)
  {
    hide XorBytes, Xor, Bit;
    forall i, j | 0 <= i < 16 && 0 <= j < 8
      ensures Bit(XorBytes(a, b)[i], j) == 1 <==> Bit(a[i], j) != Bit(b[i], j)
    {
      XorBytesAt(a, b, i);
      XorBit(a[i], b[i], 8, j);
    }
  }

  lemma BlockOfRest(first: Block, rest: seq<byte>, k: nat)
    requires 16 * (k + 1) <= |first + rest|
    ensures k == 0 ==> BlockAt(first + rest, k) == first
    ensures k > 0 ==> BlockAt(first + rest, k) == BlockAt(rest, k - 1)
  {
  }

  /** Block `k` of the ciphertext is the cipher of plaintext block `k`, bitwise exclusive or the ciphertext block before
      it, or the initial block. */
  lemma {:induction false} EncryptedBlock(c: Cipher, iv: Block, data: seq<byte>, k: nat) returns (x: Block)
    requires Blocks(data) && 16 * (k + 1) <= |data|
    ensures var out := Crypt(true, c, iv, data);
      BlockAt(out, k) == c.enc(x) && IsXor(x, BlockAt(data, k), if k == 0 then iv else BlockAt(out, k - 1))
    decreases k
  {
    hide XorBytes, IsXor, BlockAt;
    var first: Block, rest := data[..16], data[16..];
    x := XorBytes(first, iv);
    var y := c.enc(x);
    assert data == first + rest;
    BlockOfRest(first, rest, k);
    BlockOfRest(y, Encrypt(c, y, rest), k);
    if k == 0 {
      XorBytesIsXor(first, iv);
    } else {
      BlockOfRest(y, Encrypt(c, y, rest), k - 1);
      x := EncryptedBlock(c, y, rest, k - 1);
    }
  }

  /** Block `k` of the plaintext is the inverse cipher of ciphertext block `k`, bitwise exclusive or the ciphertext
      block before it, or the initial block. */
  lemma {:induction false} DecryptedBlock(c: Cipher, iv: Block, data: seq<byte>, k: nat)
    requires Blocks(data) && 16 * (k + 1) <= |data|
    ensures IsXor(BlockAt(Crypt(false, c, iv, data), k), c.dec(BlockAt(data, k)),
                  if k == 0 then iv else BlockAt(data, k - 1))
    decreases k
  {
    hide XorBytes, IsXor, BlockAt;
    var first: Block, rest := data[..16], data[16..];
    var x: Block := XorBytes(c.dec(first), iv);
    assert data == first + rest;
    BlockOfRest(first, rest, k);
    BlockOfRest(x, Decrypt(c, first, rest), k);
    if k == 0 {
      XorBytesIsXor(c.dec(first), iv);
    } else {
      BlockOfRest(first, rest, k - 1);
      DecryptedBlock(c, first, rest, k - 1);
    }
  }

  /** The last block of `first + rest` is that of `rest` chained after `first`. */
  lemma LastOfTail(iv: Block, first: Block, rest: seq<byte>)
    requires Blocks(rest)
    ensures Blocks(first + rest) && LastBlock(iv, first + rest) == LastBlock(first, rest)
  {
  }

  lemma {:induction false} EncryptSplit(c: Cipher, iv: Block, a: seq<byte>, b: seq<byte>)
    requires Blocks(a) && Blocks(b)
    ensures Blocks(a + b)
    ensures Encrypt(c, iv, a + b) == Encrypt(c, iv, a) + Encrypt(c, LastBlock(iv, Encrypt(c, iv, a)), b)
    decreases |a|
  {
    hide XorBytes;
    if a == [] {
      assert a + b == b;
    } else {
      var y := c.enc(XorBytes(a[..16], iv));
      EncryptSplit(c, y, a[16..], b);
      assert (a + b)[..16] == a[..16] && (a + b)[16..] == a[16..] + b;
      var r := Encrypt(c, y, a[16..]);
      LastOfTail(iv, y, r);
    }
  }

  lemma DecryptStep(c: Cipher, iv: Block, first: Block, rest: seq<byte>)
    requires Blocks(rest)
    ensures Blocks(first + rest)
    ensures Decrypt(c, iv, first + rest) == XorBytes(c.dec(first), iv) + Decrypt(c, first, rest)
  {
    hide XorBytes;
    assert (first + rest)[..16] == first && (first + rest)[16..] == rest;
  }

  lemma {:induction false} DecryptSplit(c: Cipher, iv: Block, a: seq<byte>, b: seq<byte>)
    requires Blocks(a) && Blocks(b)
    ensures Blocks(a + b)
    ensures Decrypt(c, iv, a + b) == Decrypt(c, iv, a) + Decrypt(c, LastBlock(iv, a), b)
    decreases |a|
  {
    hide XorBytes;
    if a == [] {
      assert a + b == b;
    } else {
      hide Decrypt, LastBlock;
      var first: Block, rest := a[..16], a[16..];
      DecryptSplit(c, first, rest, b);
      assert a == first + rest && a + b == first + (rest + b);
      DecryptStep(c, iv, first, rest);
      DecryptStep(c, iv, first, rest + b);
      LastOfTail(iv, first, rest);
    }
  }

  lemma LastOfConcat(iv: Block, x: seq<byte>, y: seq<byte>)
    requires Blocks(x) && Blocks(y)
    ensures Blocks(x + y) && LastBlock(iv, x + y) == LastBlock(LastBlock(iv, x), y)
  {
    if y == [] {
      assert x + y == x;
    } else {
      assert (x + y)[|x + y| - 16..] == y[|y| - 16..];
    }
  }

  /** Processing in two parts, the chaining block carried over, is processing in one. */
  lemma CryptSplit(encrypt: bool, c: Cipher, iv: Block, a: seq<byte>, b: seq<byte>)
    requires Blocks(a) && Blocks(b)
    ensures Blocks(a + b)
    ensures Crypt(encrypt, c, iv, a + b) == Crypt(encrypt, c, iv, a) + Crypt(encrypt, c, Chain(encrypt, c, iv, a), b)
    ensures Chain(encrypt, c, iv, a + b) == Chain(encrypt, c, Chain(encrypt, c, iv, a), b)
  {
    if encrypt {
      EncryptSplit(c, iv, a, b);
      LastOfConcat(iv, Encrypt(c, iv, a), Encrypt(c, LastBlock(iv, Encrypt(c, iv, a)), b));
    } else {
      DecryptSplit(c, iv, a, b);
      LastOfConcat(iv, a, b);
    }
  }

  // ----- The walk -----

  datatype Error = EINVAL

  /** The cipher's own state: the chaining block. */
  class Aes {
    const cipher: Cipher
    var reg: Block

    constructor (cipher: Cipher, iv: Block)
      ensures this.cipher == cipher && reg == iv
    {
      this.cipher, reg := cipher, iv;
    }

    method Process(encrypt: bool, data: seq<byte>) returns (out: seq<byte>)
      requires Blocks(data)
      modifies this
      ensures out == Crypt(encrypt, cipher, old(reg), data)
      ensures reg == Chain(encrypt, cipher, old(reg), data)
    {
      out := Crypt(encrypt, cipher, reg, data);
      reg := Chain(encrypt, cipher, reg, data);
    }
  }

  /** Bytes a side can offer at once: a full block through the local block, or its segment. */
  function Offer(len: nat): nat { if len < 16 then 16 else len }

  /** The shortest of the three, in whole blocks. */
  function PieceLength(dataLen: nat, inLen: nat, outLen: nat): (n: nat)
    requires dataLen >= 16
    ensures Whole(n) && 16 <= n <= dataLen
    ensures if inLen < 16 then n == 16 else n <= inLen
    ensures if outLen < 16 then n == 16 else n <= outLen
    ensures dataLen < n + 16 || inLen < n + 16 || outLen < n + 16
  {
    var m := Min(dataLen, Min(Offer(inLen), Offer(outLen)));
    m - m % 16
  }

  ghost predicate InputAt(text: seq<byte>, done: nat, inData: seq<byte>, inStart: nat) {
    && done <= |text| && inStart + |text| <= |inData|
    && inData[inStart + done..inStart + |text|] == text[done..]
  }

  ghost predicate OutputAt(encrypt: bool, c: Cipher, iv: Block, text: seq<byte>, done: nat,
                           outData: seq<byte>, before: seq<byte>, start: nat, reg: Block) {
    && done <= |text| && Whole(done) && start + |text| <= |before|
    && outData == Overwrite(before, start, Crypt(encrypt, c, iv, text[..done]))
    && reg == Chain(encrypt, c, iv, text[..done])
  }

  /** After `done` bytes: the rest of the input is unread and intact, the output so far is that of the
      flat mode, and the chaining block is ready for the rest. */
  ghost predicate DataAt(encrypt: bool, c: Cipher, iv: Block, text: seq<byte>, done: nat,
                         inData: seq<byte>, inStart: nat, outData: seq<byte>, before: seq<byte>, start: nat,
                         reg: Block) {
    InputAt(text, done, inData, inStart) && OutputAt(encrypt, c, iv, text, done, outData, before, start, reg)
  }

  lemma StartData(encrypt: bool, c: Cipher, iv: Block, text: seq<byte>, inData: seq<byte>, inStart: nat,
                  before: seq<byte>, start: nat)
    requires inStart + |text| <= |inData| && start + |text| <= |before| && text == Slice(inData, inStart, |text|)
    requires Whole(|text|)
    ensures Blocks(text) && DataAt(encrypt, c, iv, text, 0, inData, inStart, before, before, start, iv)
  {
  }

  lemma DataDone(encrypt: bool, c: Cipher, iv: Block, text: seq<byte>, inData: seq<byte>, inStart: nat,
                 outData: seq<byte>, before: seq<byte>, start: nat, reg: Block)
    requires Blocks(text) && DataAt(encrypt, c, iv, text, |text|, inData, inStart, outData, before, start, reg)
    ensures outData == Overwrite(before, start, Crypt(encrypt, c, iv, text))
  {
    assert text[..|text|] == text;
  }

  /** One more piece of output, and the chaining block with it. */
  lemma OutputStep(encrypt: bool, c: Cipher, iv: Block, text: seq<byte>, done: nat, n: nat,
                   outData: seq<byte>, before: seq<byte>, start: nat, reg: Block)
    requires OutputAt(encrypt, c, iv, text, done, outData, before, start, reg) && Whole(n) && done + n <= |text|
    ensures Blocks(Slice(text, done, n)) && start + done + n <= |outData|
    ensures OutputAt(encrypt, c, iv, text, done + n,
                     Overwrite(outData, start + done, Crypt(encrypt, c, reg, Slice(text, done, n))),
                     before, start, Chain(encrypt, c, reg, Slice(text, done, n)))
  {
    hide Crypt, Chain, Overwrite, Whole;
    WholeSum(done, n);
    assert text[..done + n] == text[..done] + text[done..done + n];
    CryptSplit(encrypt, c, iv, text[..done], text[done..done + n]);
    OverwriteTwice(before, start, Crypt(encrypt, c, iv, text[..done]),
                   Crypt(encrypt, c, Chain(encrypt, c, iv, text[..done]), text[done..done + n]));
  }

  lemma SubSlice(data: seq<byte>, from: nat, len: nat, text: seq<byte>, done: nat, n: nat)
    requires done + n <= len == |text| && from + len <= |data| && data[from + done..from + len] == text[done..]
    ensures data[from + done..from + done + n] == text[done..done + n]
  {
    assert data[from + done..from + done + n] == data[from + done..from + len][..n];
  }

  /** The input still to come is untouched, even when the output is written over the input just read. */
  lemma RestUnread(data: seq<byte>, from: nat, len: nat, text: seq<byte>, done: nat, n: nat, piece: seq<byte>)
    requires done + n <= len == |text| && from + len <= |data| && data[from + done..from + len] == text[done..]
    requires |piece| == n
    ensures data[from + done + n..from + len] == text[done + n..]
    ensures Overwrite(data, from + done, piece)[from + done + n..from + len] == text[done + n..]
  {
    assert data[from + done + n..from + len] == data[from + done..from + len][n..];
    assert Overwrite(data, from + done, piece)[from + done + n..from + len] == data[from + done + n..from + len];
  }

  lemma InputStep(text: seq<byte>, done: nat, n: nat, inData: seq<byte>, inStart: nat, piece: seq<byte>)
    requires InputAt(text, done, inData, inStart) && done + n <= |text| && |piece| == n
    ensures Slice(inData, inStart + done, n) == Slice(text, done, n)
    ensures InputAt(text, done + n, inData, inStart)
    ensures InputAt(text, done + n, Overwrite(inData, inStart + done, piece), inStart)
  {
    hide Overwrite;
    SubSlice(inData, inStart, |text|, text, done, n);
    RestUnread(inData, inStart, |text|, text, done, n, piece);
  }

  /** One more piece of `n` bytes, in place or not. */
  lemma DataStep(encrypt: bool, c: Cipher, iv: Block, text: seq<byte>, done: nat, n: nat, inData: seq<byte>,
                 inStart: nat,
                 outData: seq<byte>, before: seq<byte>, start: nat, reg: Block, inPlace: bool)
    requires DataAt(encrypt, c, iv, text, done, inData, inStart, outData, before, start, reg)
    requires Whole(n) && done + n <= |text|
    requires inPlace ==> inData == outData && inStart == start
    ensures Blocks(Slice(text, done, n)) && Slice(inData, inStart + done, n) == Slice(text, done, n)
    ensures var piece := Crypt(encrypt, c, reg, Slice(text, done, n));
      start + done + n <= |outData| &&
      var outData' := Overwrite(outData, start + done, piece);
      DataAt(encrypt, c, iv, text, done + n, if inPlace then outData' else inData, inStart, outData', before, start,
             Chain(encrypt, c, reg, Slice(text, done, n)))
  {
    hide InputAt, OutputAt, Crypt, Chain, Overwrite;
    WholeSum(n, 0);
    OutputStep(encrypt, c, iv, text, done, n, outData, before, start, reg);
    InputStep(text, done, n, inData, inStart, Crypt(encrypt, c, reg, Slice(text, done, n)));
  }

  lemma SliceOfOverwrite(data: seq<byte>, at: nat, b: seq<byte>)
    requires at + |b| <= |data|
    ensures Slice(Overwrite(data, at, b), at, |b|) == b
  {
  }

  lemma OverwriteBack(data: seq<byte>, at: nat, b: seq<byte>)
    requires at + |b| <= |data|
    ensures |Overwrite(data, at, b)| == |data|
    ensures Overwrite(Overwrite(data, at, b), at, Slice(data, at, |b|)) == data
  {
  }

  lemma CryptBack(c: Cipher, iv: Block, text: seq<byte>)
    requires IsCipher(c) && Blocks(text)
    ensures Blocks(Crypt(true, c, iv, text)) && Crypt(false, c, iv, Crypt(true, c, iv, text)) == text
  {
    DecryptEncrypt(c, iv, text);
  }

  // ----- Segments and pieces -----

  /** A cursor and the segment pointer that goes with it: the pointer is the cursor with the bytes
      left in its segment, or it is used up. */
  predicate At(lens: seq<nat>, cc: Ptr, seg: Ptr, len: nat, addr: nat) {
    IsCursor(lens, cc) && Addr(lens, cc) == addr && (len == 0 || (seg == cc && len == Left(lens, cc)))
  }

  /** While a piece is in work: a piece taken through the local block has already moved the cursor. */
  predicate Taken(lens: seq<nat>, cc: Ptr, seg: Ptr, len: nat, addr: nat, n: nat) {
    if len < 16 then n == 16 && IsCursor(lens, cc) && Addr(lens, cc) == addr + 16
    else n <= len && At(lens, cc, seg, len, addr)
  }

  lemma AtInside(lens: seq<nat>, cc: Ptr, seg: Ptr, len: nat, addr: nat)
    requires At(lens, cc, seg, len, addr)
    ensures IsCursor(lens, cc) && Addr(lens, cc) == addr && addr + len <= Size(lens)
    ensures len > 0 ==> seg == cc && cc.seg < |lens| && cc.off + len == lens[cc.seg]
  {
    AddrInside(lens, cc);
  }

  lemma AtAdvance(lens: Cuts, cc: Ptr, n: nat)
    requires IsCursor(lens, cc) && n <= Left(lens, cc)
    ensures At(lens, Advance(lens, cc, n), Ptr(cc.seg, cc.off + n), Left(lens, cc) - n, Addr(lens, cc) + n)
  {
    AddrInside(lens, cc);
    AdvanceAddr(lens, cc, n);
  }

  /** A cursor at byte `start`, with its segment. */
  method OpenAt(buf: CryptoBuffer, start: nat) returns (cc: Ptr, seg: Ptr, len: nat)
    requires buf.Valid() && start <= |buf.data|
    ensures At(buf.lens, cc, seg, len, start)
  {
    AdvanceAddr(buf.lens, Front(buf.lens), start);
    cc := Advance(buf.lens, Front(buf.lens), start);
    seg, len := cc, Left(buf.lens, cc);
  }

  /** Takes a piece from the segment, or through the local block when less than one block is left there. */
  method ReadPiece(buf: CryptoBuffer, cc: Ptr, seg: Ptr, len: nat, n: nat, ghost addr: nat)
      returns (piece: seq<byte>, cc': Ptr)
    requires buf.Valid() && At(buf.lens, cc, seg, len, addr) && addr + n <= |buf.data|
    requires 16 <= n && (if len < 16 then n == 16 else n <= len)
    ensures piece == Slice(buf.data, addr, n) && Taken(buf.lens, cc', seg, len, addr, n)
  {
    cc' := cc;
    if len < 16 {
      AdvanceAddr(buf.lens, cc, 16);
      piece, cc' := buf.CopyData(cc, 16);
    } else {
      AtInside(buf.lens, cc, seg, len, addr);
      piece := buf.ReadSegment(seg, n);
    }
  }

  /** Stores a piece through the local block or straight into the segment, and moves on. */
  method StorePiece(out: CryptoBuffer, cc: Ptr, seg: Ptr, len: nat, piece: seq<byte>, ghost addr: nat)
      returns (cc': Ptr, seg': Ptr, len': nat)
    requires out.Valid() && At(out.lens, cc, seg, len, addr) && addr + |piece| <= |out.data|
    requires 16 <= |piece| && (if len < 16 then |piece| == 16 else |piece| <= len)
    modifies out
    ensures out.Valid() && out.data == Overwrite(old(out.data), addr, piece)
    ensures At(out.lens, cc', seg', len', addr + |piece|)
  {
    AdvanceAddr(out.lens, cc, |piece|);
    if len < 16 {
      cc' := out.CopyBack(cc, piece);
      seg', len' := cc', Left(out.lens, cc');
    } else {
      AtInside(out.lens, cc, seg, len, addr);
      AtAdvance(out.lens, cc, |piece|);
      out.WriteSegment(seg, piece);
      cc' := Advance(out.lens, cc, |piece|);
      seg', len' := Ptr(seg.seg, seg.off + |piece|), len - |piece|;
    }
  }

  /** Moves the input on behind the piece taken. */
  method PassInput(lens: Cuts, cc: Ptr, seg: Ptr, len: nat, n: nat, ghost addr: nat)
      returns (cc': Ptr, seg': Ptr, len': nat)
    requires Taken(lens, cc, seg, len, addr, n)
    ensures At(lens, cc', seg', len', addr + n)
  {
    if len < 16 {
      cc', seg', len' := cc, cc, Left(lens, cc);
    } else {
      AtInside(lens, cc, seg, len, addr);
      AtAdvance(lens, cc, n);
      cc' := Advance(lens, cc, n);
      seg', len' := Ptr(seg.seg, seg.off + n), len - n;
    }
  }

  // ----- The whole walk -----

  /** Encrypts or decrypts `payload` bytes of `inBuf` from `inStart` on, into `outBuf` from `outStart` on,
      or in place when there is no output buffer. Whatever the cuts, the bytes are those of the flat mode. */
  method CbcWork(isCbc: bool, encrypt: bool, cipher: Cipher, iv: Block, inBuf: CryptoBuffer, inStart: nat, payload: nat,
                 outBuf: CryptoBuffer?, outStart: nat) returns (ok: bool)
    requires inBuf.Valid() && inStart + payload <= |inBuf.data|
    requires outBuf != null ==> outBuf != inBuf && outBuf.Valid() && outStart + payload <= |outBuf.data|
    modifies if outBuf == null then inBuf else outBuf
    ensures inBuf.Valid() && |inBuf.data| == |old(inBuf.data)|
    ensures outBuf != null ==> outBuf.Valid() && |outBuf.data| == |old(outBuf.data)| && inBuf.data == old(inBuf.data)
    ensures ok <==> isCbc && Whole(payload)
    ensures ok ==>
      Blocks(Slice(old(inBuf.data), inStart, payload)) &&
      var result := Crypt(encrypt, cipher, iv, Slice(old(inBuf.data), inStart, payload));
      if outBuf == null then inBuf.data == Overwrite(old(inBuf.data), inStart, result)
      else outBuf.data == Overwrite(old(outBuf.data), outStart, result)
    ensures !ok ==> inBuf.data == old(inBuf.data) && (outBuf != null ==> outBuf.data == old(outBuf.data))
  {
    hide *;
    if !isCbc {
      return false;
    }
    var dataLen := payload;
    if !Whole(dataLen) {
      return false;
    }
    var aes := new Aes(cipher, iv);
    var out, start := inBuf, inStart;
    if outBuf != null {
      out, start := outBuf, outStart;
    }
    ghost var text, before := Slice(inBuf.data, inStart, payload), out.data;
    var ccIn, inSeg, inLen := OpenAt(inBuf, inStart);
    var ccOut, outSeg, outLen := OpenAt(out, start);
    ghost var done := 0;
    StartData(encrypt, cipher, iv, text, inBuf.data, inStart, before, start);

    while dataLen != 0
      invariant 0 <= done <= payload && dataLen == payload - done && Whole(dataLen)
      invariant inBuf.Valid() && out.Valid() && |inBuf.data| == |old(inBuf.data)| && |out.data| == |before|
      invariant At(inBuf.lens, ccIn, inSeg, inLen, inStart + done)
      invariant At(out.lens, ccOut, outSeg, outLen, start + done)
      invariant DataAt(encrypt, cipher, iv, text, done, inBuf.data, inStart, out.data, before, start, aes.reg)
      invariant aes.cipher == cipher
      invariant outBuf != null ==> inBuf.data == old(inBuf.data)
    {
      WholeSum(dataLen, 0);
      var n := PieceLength(dataLen, inLen, outLen);
      WholeSum(dataLen, n);
      ghost var inData, outData, reg := inBuf.data, out.data, aes.reg;
      DataStep(encrypt, cipher, iv, text, done, n, inData, inStart, outData, before, start, reg, outBuf == null);
      var piece;
      piece, ccIn := ReadPiece(inBuf, ccIn, inSeg, inLen, n, inStart + done);
      piece := aes.Process(encrypt, piece);
      assert piece == Crypt(encrypt, cipher, reg, Slice(text, done, n));
      ccOut, outSeg, outLen := StorePiece(out, ccOut, outSeg, outLen, piece, start + done);
      assert out.data == Overwrite(outData, start + done, piece);
      assert inBuf.data == if outBuf == null then out.data else inData;
      ccIn, inSeg, inLen := PassInput(inBuf.lens, ccIn, inSeg, inLen, n, inStart + done);
      dataLen := dataLen - n;
      done := done + n;
    }
    DataDone(encrypt, cipher, iv, text, inBuf.data, inStart, out.data, before, start, aes.reg);
    return true;
  }

  /** Encrypting from one buffer into a second and decrypting from there into a third gives the text back,
      however differently the three are cut. */
  method EncryptThenDecrypt(cipher: Cipher, iv: Block, plain: CryptoBuffer, secret: CryptoBuffer, back: CryptoBuffer,
                            plainAt: nat, secretAt: nat, backAt: nat, n: nat)
    requires IsCipher(cipher) && Whole(n) && plain != secret && secret != back && plain != back
    requires plain.Valid() && plainAt + n <= |plain.data|
    requires secret.Valid() && secretAt + n <= |secret.data|
    requires back.Valid() && backAt + n <= |back.data|
    modifies secret, back
    ensures |back.data| == |old(back.data)|
    ensures Slice(back.data, backAt, n) == Slice(old(plain.data), plainAt, n)
  {
    hide *;
    ghost var text := Slice(plain.data, plainAt, n);
    var ok := CbcWork(true, true, cipher, iv, plain, plainAt, n, secret, secretAt);
    SliceOfOverwrite(old(secret.data), secretAt, Crypt(true, cipher, iv, text));
    ok := CbcWork(true, false, cipher, iv, secret, secretAt, n, back, backAt);
    CryptBack(cipher, iv, text);
    SliceOfOverwrite(old(back.data), backAt, text);
  }

  /** The same in place: the buffer is as it was. */
  method EncryptThenDecryptInPlace(cipher: Cipher, iv: Block, b: CryptoBuffer, at: nat, n: nat)
    requires IsCipher(cipher) && Whole(n) && b.Valid() && at + n <= |b.data|
    modifies b
    ensures b.Valid() && b.data == old(b.data)
  {
    hide *;
    ghost var was, text := b.data, Slice(b.data, at, n);
    var ok := CbcWork(true, true, cipher, iv, b, at, n, null, 0);
    SliceOfOverwrite(was, at, Crypt(true, cipher, iv, text));
    ok := CbcWork(true, false, cipher, iv, b, at, n, null, 0);
    CryptBack(cipher, iv, text);
    OverwriteBack(was, at, Crypt(true, cipher, iv, text));
  }
}
