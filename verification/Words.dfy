/** Machine words as bounded integers: little-endian byte strings, truncation and exclusive or. */
module Words {

  type byte = x: int | 0 <= x < 256

  type uint32 = x: int | 0 <= x < 0x1_0000_0000

  type int32 = x: int | -0x8000_0000 <= x < 0x8000_0000

  type word64 = x: int | 0 <= x < 0x1_0000_0000_0000_0000

  /** 2 to the power of the bit width of `n` bytes. */
  function Span(n: nat): (r: nat)
    ensures r > 0
  {
    if n == 0 then 1 else 256 * Span(n - 1)
  }

  lemma SpanValues()
    ensures Span(2) == 0x1_0000 && Span(4) == 0x1_0000_0000 && Span(8) == 0x1_0000_0000_0000_0000
  {
    assert Span(1) == 256 * Span(0);
    assert Span(3) == 256 * Span(2);
    assert Span(5) == 256 * Span(4);
    assert Span(6) == 256 * Span(5);
    assert Span(7) == 256 * Span(6);
  }

  function Decode(b: seq<byte>): nat {
    if b == [] then 0 else b[0] + 256 * Decode(b[1..])
  }

  lemma {:induction false} DecodeBound(b: seq<byte>)
    ensures Decode(b) < Span(|b|)
  {
    if b != [] {
      DecodeBound(b[1..]);
    }
  }

  /** A 16-, 32- or 64-bit word read from memory. */
  function DecodeWord(b: seq<byte>): (v: nat)
    ensures |b| == 2 ==> v < 0x1_0000
    ensures |b| == 4 ==> v < 0x1_0000_0000
    ensures |b| == 8 ==> v < 0x1_0000_0000_0000_0000
  {
    DecodeBound(b);
    SpanValues();
    Decode(b)
  }

  /** The `n` low bytes of `v`, least significant first. */
  function Encode(v: nat, n: nat): (b: seq<byte>)
    ensures |b| == n
  {
    if n == 0 then [] else [v % 256] + Encode(v / 256, n - 1)
  }

  lemma ProductBetween(m: int, d: int)
    requires 0 < m && -m < m * d < m
    ensures d == 0
  {
  }

  lemma ModUnique(v: int, m: int, q: int, r: int)
    requires 0 <= r < m && v == m * q + r
    ensures v % m == r && v / m == q
  {
    var d := v / m - q;
    assert m * d == r - v % m;
    assert -m < m * d < m;
    ProductBetween(m, d);
  }

  lemma ModStep(v: nat, s: nat)
    requires s > 0
    ensures v % 256 + 256 * ((v / 256) % s) == v % (256 * s)
  {
    var q, r := (v / 256) / s, (v / 256) % s;
    assert v / 256 == q * s + r;
    assert v == (256 * s) * q + (256 * r + v % 256);
    ModUnique(v, 256 * s, q, 256 * r + v % 256);
  }

  lemma {:induction false} DecodeEncode(v: nat, n: nat)
    ensures Decode(Encode(v, n)) == v % Span(n)
  {
    if n != 0 {
      DecodeEncode(v / 256, n - 1);
      ModStep(v, Span(n - 1));
    }
  }

  lemma {:induction false} EncodeDecode(b: seq<byte>)
    ensures Encode(Decode(b), |b|) == b
  {
    if b != [] {
      EncodeDecode(b[1..]);
      assert Decode(b) / 256 == Decode(b[1..]) && Decode(b) % 256 == b[0];
    }
  }

  lemma EncodeMod(v: nat, n: nat)
    ensures Encode(v, n) == Encode(v % Span(n), n)
  {
    DecodeEncode(v, n);
    EncodeDecode(Encode(v, n));
  }

  /** Encoding sees a value only modulo the span, and nothing less. */
  lemma EncodeAgree(u: nat, v: nat, n: nat)
    ensures Encode(u, n) == Encode(v, n) <==> u % Span(n) == v % Span(n)
  {
    if Encode(u, n) == Encode(v, n) {
      DecodeEncode(u, n);
      DecodeEncode(v, n);
    }
    if u % Span(n) == v % Span(n) {
      EncodeMod(u, n);
      EncodeMod(v, n);
    }
  }

  // ----- Modular arithmetic -----

  /** Conversion to a 32-bit unsigned word. */
  function Truncate32(v: int): (r: uint32)
    ensures 0 <= v ==> r <= v
    ensures 0 <= v < 0x1_0000_0000 ==> r == v
  {
    v % 0x1_0000_0000
  }

  lemma ModShift(v: int, m: int, k: int)
    requires m > 0
    ensures (v + m * k) % m == v % m
  {
    assert v + m * k == m * (v / m + k) + v % m;
    ModUnique(v + m * k, m, v / m + k, v % m);
  }

  /** Reducing modulo a multiple of `m` first does not change the residue modulo `m`. */
  lemma ModMod(v: int, m: int, k: int)
    requires m > 0 && k > 0
    ensures m * k > 0 && (v % (m * k)) % m == v % m
  {
    var q := v / (m * k);
    assert v % (m * k) == v + m * (-(k * q));
    ModShift(v, m, -(k * q));
  }

  lemma ModAdd(u: int, v: int, d: int, m: int)
    requires m > 0 && u % m == v % m
    ensures (u + d) % m == (v + d) % m
  {
    assert u + d == (v + d) + m * (u / m - v / m);
    ModShift(v + d, m, u / m - v / m);
  }

  // ----- Exclusive or -----

  function Pow2(n: nat): (r: nat)
    ensures r > 0
  {
    if n == 0 then 1 else 2 * Pow2(n - 1)
  }

  function Differ(a: nat, b: nat): (d: nat)
    ensures d < 2
  {
    if a % 2 == b % 2 then 0 else 1
  }

  /** Bitwise exclusive or of the `n` low bits. */
  function Xor(a: nat, b: nat, n: nat): (r: nat)
    ensures r < Pow2(n)
  {
    if n == 0 then 0 else Differ(a, b) + 2 * Xor(a / 2, b / 2, n - 1)
  }

  /** A number's residue modulo twice `p` from that of its half. */
  lemma HalfMod(a: nat, p: nat)
    requires p > 0
    ensures a % (2 * p) == a % 2 + 2 * ((a / 2) % p)
  {
    var q, r := (a / 2) / p, (a / 2) % p;
    assert a / 2 == p * q + r;
    assert a == (2 * p) * q + (2 * r + a % 2);
    ModUnique(a, 2 * p, q, 2 * r + a % 2);
  }

  lemma {:induction false} XorLowBits(a: nat, b: nat, m: nat, n: nat)
    requires m <= n
    ensures Xor(a, b, n) % Pow2(m) == Xor(a, b, m)
  {
    if m > 0 {
      XorLowBits(a / 2, b / 2, m - 1, n - 1);
      var x := Xor(a, b, n);
      assert x == Differ(a, b) + 2 * Xor(a / 2, b / 2, n - 1);
      assert x / 2 == Xor(a / 2, b / 2, n - 1) && x % 2 == Differ(a, b);
      HalfMod(x, Pow2(m - 1));
    }
  }

  lemma {:induction false} XorInvolution(a: nat, b: nat, n: nat)
    ensures Xor(Xor(a, b, n), b, n) == a % Pow2(n)
  {
    if n > 0 {
      XorInvolution(a / 2, b / 2, n - 1);
      var x := Xor(a, b, n);
      assert x == Differ(a, b) + 2 * Xor(a / 2, b / 2, n - 1);
      assert x / 2 == Xor(a / 2, b / 2, n - 1) && x % 2 == Differ(a, b);
      HalfMod(a, Pow2(n - 1));
    }
  }

  lemma {:induction false} XorMod(a: nat, b: nat, n: nat)
    ensures Xor(a % Pow2(n), b, n) == Xor(a, b, n)
  {
    XorInvolution(a, b, n);
    var x := Xor(a, b, n);
    // exclusive or twice with b gives x back on both sides
    XorInvolution(x, b, n);
    ModUnique(x, Pow2(n), 0, x);
  }

  /** Exclusive or with a fixed word is injective on the low `m` bits. */
  lemma XorAgree(u: nat, v: nat, b: nat, m: nat, n: nat)
    requires m <= n
    ensures Xor(u, b, n) % Pow2(m) == Xor(v, b, n) % Pow2(m) <==> u % Pow2(m) == v % Pow2(m)
  {
    XorLowBits(u, b, m, n);
    XorLowBits(v, b, m, n);
    XorInvolution(u, b, m);
    XorInvolution(v, b, m);
    XorMod(u, b, m);
    XorMod(v, b, m);
  }

  lemma Pow2Times256(k: nat)
    ensures Pow2(k + 8) == 256 * Pow2(k)
  {
    assert Pow2(k + 2) == 4 * Pow2(k);
    assert Pow2(k + 4) == 4 * Pow2(k + 2);
    assert Pow2(k + 6) == 4 * Pow2(k + 4);
    assert Pow2(k + 8) == 4 * Pow2(k + 6);
  }

  lemma {:induction false} Pow2IsSpan(n: nat)
    ensures Pow2(8 * n) == Span(n)
  {
    if n > 0 {
      Pow2IsSpan(n - 1);
      Pow2Times256(8 * (n - 1));
    }
  }

  // ----- Bits -----

  /** Bit `k` of `v`, counted from the least significant. */
  function Bit(v: nat, k: nat): nat {
    if k == 0 then v % 2 else Bit(v / 2, k - 1)
  }

  lemma XorHalf(a: nat, b: nat, n: nat)
    requires n > 0
    ensures Xor(a, b, n) / 2 == Xor(a / 2, b / 2, n - 1)
    ensures Xor(a, b, n) % 2 == 1 <==> a % 2 != b % 2
  {
    hide Pow2;
    assert Xor(a, b, n) == Differ(a, b) + 2 * Xor(a / 2, b / 2, n - 1);
  }

  /** Exclusive or, bit by bit: one exactly where the operands differ. */
  lemma {:induction false} XorBit(a: nat, b: nat, n: nat, k: nat)
    requires k < n
    ensures Bit(Xor(a, b, n), k) == 1 <==> Bit(a, k) != Bit(b, k)
  {
    hide Xor;
    XorHalf(a, b, n);
    if k > 0 {
      XorBit(a / 2, b / 2, n - 1, k - 1);
    }
  }

  lemma {:induction false} BitBound(v: nat, k: nat)
    ensures Bit(v, k) < 2
  {
    if k > 0 {
      BitBound(v / 2, k - 1);
    }
  }

  lemma {:induction false} BitOfShift(v: nat, c: nat, k: nat)
    ensures Bit(v * Pow2(c), k) == if k < c then 0 else Bit(v, k - c)
  {
    if c > 0 {
      var w := v * Pow2(c - 1);
      assert v * Pow2(c) == 2 * w;
      assert (2 * w) / 2 == w && (2 * w) % 2 == 0;
      if k > 0 {
        BitOfShift(v, c - 1, k - 1);
      }
    } else {
      assert v * Pow2(0) == v;
    }
  }

  lemma {:induction false} BitOfMod(v: nat, m: nat, k: nat)
    requires k < m
    ensures Bit(v % Pow2(m), k) == Bit(v, k)
  {
    var p := Pow2(m - 1);
    HalfMod(v, p);
    assert (v % 2 + 2 * ((v / 2) % p)) / 2 == (v / 2) % p;
    if k > 0 {
      BitOfMod(v / 2, m - 1, k - 1);
    }
  }

  lemma BitSkip4(v: nat, k: nat)
    ensures Bit(v / 16, k) == Bit(v, k + 4)
  {
    assert v / 2 / 2 == v / 4 && v / 4 / 2 == v / 8 && v / 8 / 2 == v / 16;
    assert Bit(v, k + 4) == Bit(v / 2, k + 3);
    assert Bit(v / 2, k + 3) == Bit(v / 4, k + 2);
    assert Bit(v / 4, k + 2) == Bit(v / 8, k + 1);
  }

  lemma BitSkip8(v: nat, k: nat)
    ensures Bit(v / 256, k) == Bit(v, k + 8)
  {
    hide Bit;
    BitSkip4(v, k + 4);
    BitSkip4(v / 16, k);
    assert v / 16 / 16 == v / 256;
  }

  lemma Pow2Of8()
    ensures Pow2(8) == 256
  {
    Pow2Times256(0);
  }

  /** The bits of an encoded word, byte by byte. */
  lemma {:induction false} BitOfByte(v: nat, n: nat, k: nat, j: nat)
    requires k < n && j < 8
    ensures Bit(Encode(v, n)[k], j) == Bit(v, 8 * k + j)
  {
    if k > 0 {
      BitOfByte(v / 256, n - 1, k - 1, j);
      BitSkip8(v, 8 * (k - 1) + j);
    } else {
      Pow2Of8();
      BitOfMod(v, 8, j);
    }
  }

  // ----- Buffers -----

  /** The bytes `b` written over those of `data` from `at` on. */
  function Overwrite(data: seq<byte>, at: nat, b: seq<byte>): (r: seq<byte>)
    requires at + |b| <= |data|
    ensures |r| == |data|
  {
    data[..at] + b + data[at + |b|..]
  }

  lemma OverwriteAt(data: seq<byte>, at: nat, b: seq<byte>, k: nat)
    requires at + |b| <= |data| && k < |data|
    ensures Overwrite(data, at, b)[k] == if at <= k < at + |b| then b[k - at] else data[k]
  {
  }
}
