/**
 AES-CMAC over an arbitrary 16-byte block function: the definition of RFC 4493
 (sections 2.3 and 2.4) and the in-place loops that compute it.
 */
module Cmac {
  import opened Bytes

  type Block = s: seq<byte> | |s| == 16 witness Zeros(16)

  /** Encryption under a 16-byte key: any function from blocks to blocks. */
  type Cipher = (Block, Block) -> Block

  /** Exclusive or of the low `n` bits. */
  function XorBits(a: nat, b: nat, n: nat): (r: nat)
    ensures r < Pow2(n)
  {
    if n == 0 then 0 else (a + b) % 2 + 2 * XorBits(a / 2, b / 2, n - 1)
  }

  function Pow2(n: nat): nat {
    if n == 0 then 1 else 2 * Pow2(n - 1)
  }

  lemma Pow2Byte()
    ensures Pow2(8) == 256
  {
  }

  lemma {:induction false} XorBitsZero(a: nat, n: nat)
    requires a < Pow2(n)
    ensures XorBits(a, 0, n) == a
  {
    if n > 0 {
      XorBitsZero(a / 2, n - 1);
    }
  }

  function Xor8(a: byte, b: byte): byte {
    Pow2Byte();
    XorBits(a as nat, b as nat, 8) as byte
  }

  /** XOR of two strings over their common length. */
  function XorInto(dst: seq<byte>, src: seq<byte>): (r: seq<byte>)
    ensures |r| == |dst|
  {
    seq(|dst|, i requires 0 <= i < |dst| => if i < |src| then Xor8(dst[i], src[i]) else dst[i])
  }

  // ---- RFC 4493 ----

  /** The n-byte big-endian string whose value is `v` modulo 256^n. */
  function ToBE(v: nat, n: nat): (s: seq<byte>)
    ensures |s| == n
  {
    if n == 0 then [] else ToBE(v / 256, n - 1) + [(v % 256) as byte]
  }

  const CONST_RB: Block := Zeros(15) + [0x87]

  /** Section 2.3: the string shifted left by one bit, reduced by const_Rb when the top bit was set. */
  function Subkey(l: Block): Block {
    var shifted := ToBE(2 * FromBE(l), 16);
    if FromBE(l) < 128 * Pow256(15) then shifted else XorInto(shifted, CONST_RB)
  }

  /** Section 2.4, padding(x): one bit 1, then zeros. */
  function Padding(x: seq<byte>): Block
    requires |x| < 16
  {
    x + [0x80] + Zeros(15 - |x|)
  }

  /** Steps 5 and 6 of section 2.4, before the last block: X_i = AES(K, X_(i-1) xor M_i). */
  function Chain(e: Cipher, key: Block, m: seq<byte>, blocks: nat): Block
    requires 16 * blocks <= |m|
  {
    if blocks == 0 then Zeros(16)
    else e(key, XorInto(Chain(e, key, m, blocks - 1), m[16 * (blocks - 1)..16 * blocks]))
  }

  /** Steps 2 and 3: the number of blocks, one for the empty message. */
  function BlockCount(m: seq<byte>): (n: nat)
    ensures n >= 1 && 16 * (n - 1) <= |m|
  {
    if |m| == 0 then 1 else (|m| + 15) / 16
  }

  /** Step 4: M_last, from a complete last block and K1 or from the padded rest and K2. */
  function LastInput(m: seq<byte>, k1: Block, k2: Block): Block {
    if |m| > 0 && |m| % 16 == 0 then XorInto(m[|m| - 16..], k1)
    else XorInto(Padding(m[|m| / 16 * 16..]), k2)
  }

  /** Section 2.4 for a message of any length. */
  function Mac(e: Cipher, key: Block, m: seq<byte>): Block {
    var k1 := Subkey(e(key, Zeros(16)));
    var k2 := Subkey(k1);
    e(key, XorInto(Chain(e, key, m, BlockCount(m) - 1), LastInput(m, k1, k2)))
  }

  // ---- Shifting is doubling ----

  /** What the shift loop leaves: each byte doubled, plus the top bit of its right neighbour. */
  function Shifted(src: seq<byte>): (r: seq<byte>)
    ensures |r| == |src|
  {
    seq(|src|, i requires 0 <= i < |src| => ShiftedByte(src, i))
  }

  function ShiftedByte(src: seq<byte>, i: nat): byte
    requires i < |src|
  {
    ((2 * src[i] as int) % 256 + (if i + 1 < |src| && src[i + 1] >= 128 then 1 else 0)) as byte
  }

  /** Carry-in form used for the induction: `c` comes in from the right. */
  function ShiftCarry(src: seq<byte>, c: nat): (r: seq<byte>)
    requires c <= 1
    ensures |r| == |src|
  {
    if src == [] then []
    else
      var last := src[|src| - 1] as int;
      ShiftCarry(src[..|src| - 1], last / 128) + [((2 * last) % 256 + c) as byte]
  }

  lemma {:induction false} ShiftCarryBytes(src: seq<byte>, c: nat, i: nat)
    requires c <= 1 && i < |src|
    ensures ShiftCarry(src, c)[i] as int
            == (2 * src[i] as int) % 256 + (if i + 1 < |src| then src[i + 1] as int / 128 else c)
  {
    if i < |src| - 1 {
      var init := src[..|src| - 1];
      ShiftCarryBytes(init, src[|src| - 1] as int / 128, i);
      assert init[i] == src[i];
      assert i + 1 < |init| ==> init[i + 1] == src[i + 1];
    }
  }

  lemma {:induction false} ShiftCarryDoubles(src: seq<byte>, c: nat)
    requires c <= 1
    ensures ShiftCarry(src, c) == ToBE(2 * FromBE(src) + c, |src|)
  {
    if src != [] {
      var init, last := src[..|src| - 1], src[|src| - 1] as int;
      ShiftCarryDoubles(init, last / 128);
      DoubledDigit(FromBE(init), last, c);
      DigitSplit(2 * FromBE(init) + last / 128, (2 * last) % 256 + c);
    }
  }

  lemma DoubledDigit(high: nat, last: nat, c: nat)
    requires last < 256 && c <= 1
    ensures 2 * (256 * high + last) + c == 256 * (2 * high + last / 128) + ((2 * last) % 256 + c)
    ensures (2 * last) % 256 + c < 256
  {
  }

  lemma DigitSplit(q: nat, r: nat)
    requires r < 256
    ensures (256 * q + r) / 256 == q && (256 * q + r) % 256 == r
  {
  }

  lemma {:induction false} ToBEInverse(v: nat, n: nat)
    ensures FromBE(ToBE(v, n)) == v % Pow256(n)
  {
    if n > 0 {
      var p := Pow256(n - 1);
      ToBEInverse(v / 256, n - 1);
      var s := ToBE(v, n);
      assert s[..n - 1] == ToBE(v / 256, n - 1);
      ModSplit(v, p);
    }
  }

  lemma ModSplit(v: nat, p: nat)
    requires p >= 1
    ensures v % (256 * p) == 256 * (v / 256 % p) + v % 256
  {
    var q, r := v / 256 / p, v / 256 % p;
    assert v / 256 == q * p + r;
    assert v == q * (256 * p) + (256 * r + v % 256);
    ModUnique(v, 256 * p, q, 256 * r + v % 256);
  }

  lemma MulAtLeast(a: int, d: nat)
    requires a >= 1
    ensures a * d >= d
  {
  }

  lemma ModUnique(v: nat, d: nat, q: nat, r: nat)
    requires d >= 1 && r < d && v == q * d + r
    ensures v % d == r
  {
    var q' := v / d;
    var gap := q' - q;
    assert v - v % d == q' * d;
    assert gap * d == q' * d - q * d;
    if gap > 0 {
      MulAtLeast(gap, d);
    } else if gap < 0 {
      MulAtLeast(-gap, d);
    }
  }

  lemma ShiftedIsCarry(src: seq<byte>)
    ensures Shifted(src) == ShiftCarry(src, 0)
  {
    forall i | 0 <= i < |src|
      ensures ShiftedByte(src, i) == ShiftCarry(src, 0)[i]
    {
      ShiftCarryBytes(src, 0, i);
    }
  }

  /** shiftLeft on n bytes, written as an n-byte string, is the double of the big-endian value. */
  lemma ShiftedDoubles(src: seq<byte>)
    ensures Shifted(src) == ToBE(2 * FromBE(src), |src|)
  {
    ShiftedIsCarry(src);
    ShiftCarryDoubles(src, 0);
  }

  /** shiftLeft on n bytes is doubling modulo 2^(8n). */
  lemma ShiftIsDoubling(src: seq<byte>)
    ensures FromBE(Shifted(src)) == 2 * FromBE(src) % Pow256(|src|)
  {
    ShiftedDoubles(src);
    ToBEInverse(2 * FromBE(src), |src|);
  }

  /** The top bit of the first byte decides which half of the range the value lies in. */
  lemma {:induction false} TopBit(s: seq<byte>)
    requires |s| > 0
    ensures s[0] >= 128 <==> FromBE(s) >= 128 * Pow256(|s| - 1)
  {
    if |s| > 1 {
      var init := s[..|s| - 1];
      TopBit(init);
      assert init[0] == s[0];
      assert Pow256(|s| - 1) == 256 * Pow256(|s| - 2);
    } else {
      assert s[..0] == [];
    }
  }

  // ---- The loops ----

  method ShiftLeft(dst: array<byte>, src: array<byte>)
    requires dst.Length == src.Length && dst != src
    modifies dst
    ensures dst[..] == ToBE(2 * FromBE(src[..]), src.Length)
  {
    var overflow := 0;
    var i := src.Length - 1;
    while i >= 0
      invariant -1 <= i < src.Length
      invariant overflow == if i + 1 < src.Length && src[i + 1] >= 128 then 1 else 0
      invariant forall k :: i < k < src.Length ==> dst[k] == ShiftedByte(src[..], k)
    {
      var newOverflow := if src[i] >= 128 then 1 else 0;
      dst[i] := ((2 * src[i] as int) % 256 + overflow) as byte;
      overflow := newOverflow;
      i := i - 1;
    }
    assert dst[..] == Shifted(src[..]);
    ShiftedDoubles(src[..]);
  }

  method XorBytes(dst: array<byte>, src: seq<byte>)
    modifies dst
    ensures dst[..] == XorInto(old(dst[..]), src)
  {
    var i := 0;
    while i < dst.Length && i < |src|
      invariant 0 <= i <= dst.Length && i <= |src|
      invariant forall k :: 0 <= k < i ==> dst[k] == Xor8(old(dst[k]), src[k])
      invariant forall k :: i <= k < dst.Length ==> dst[k] == old(dst[k])
    {
      dst[i] := Xor8(dst[i], src[i]);
      i := i + 1;
    }
  }

  lemma XorRb(s: Block)
    ensures XorInto(s, CONST_RB) == s[15 := Xor8(s[15], 0x87)]
  {
    forall i | 0 <= i < 15
      ensures XorInto(s, CONST_RB)[i] == s[i]
    {
      XorZero(s[i]);
    }
  }

  lemma XorZero(b: byte)
    ensures Xor8(b, 0) == b
  {
    Pow2Byte();
    XorBitsZero(b as nat, 8);
  }

  /** One subkey step: shift `l` into a fresh array, then fold const_Rb into the last byte. */
  method NextSubkey(l: array<byte>) returns (k: array<byte>)
    requires l.Length == 16
    ensures fresh(k) && k.Length == 16
    ensures k[..] == Subkey(l[..])
  {
    hide ToBE, FromBE, XorInto, Xor8;
    k := new byte[16];
    ShiftLeft(k, l);
    TopBit(l[..]);
    if l[0] >= 128 {
      XorRb(k[..]);
      k[15] := Xor8(k[15], 0x87);
    }
  }

  method GenerateSubkeys(e: Cipher, key: Block) returns (k1: Block, k2: Block)
    ensures k1 == Subkey(e(key, Zeros(16)))
    ensures k2 == Subkey(k1)
  {
    var enc := e(key, Zeros(16));
    var l := new byte[16](i requires 0 <= i < 16 => enc[i]);
    assert l[..] == enc;
    var a1 := NextSubkey(l);
    var a2 := NextSubkey(a1);
    k1, k2 := a1[..], a2[..];
  }

  /** A key is padded with zeros or cut to 16 bytes before use. */
  function FitKey(key: seq<byte>): Block {
    if |key| >= 16 then key[..16] else key + Zeros(16 - |key|)
  }

  method FullLastBlock(tail: Block, k1: Block) returns (last: Block)
    ensures last == XorInto(tail, k1)
  {
    var block := new byte[16](i requires 0 <= i < 16 => tail[i]);
    assert block[..] == tail;
    XorBytes(block, k1);
    last := block[..];
  }

  method PaddedLastBlock(tail: seq<byte>, k2: Block) returns (last: Block)
    requires |tail| < 16
    ensures last == XorInto(Padding(tail), k2)
  {
    var block := new byte[16](i => if 0 <= i < |tail| then tail[i] else 0);
    block[|tail|] := 0x80;
    assert block[..] == Padding(tail);
    XorBytes(block, k2);
    last := block[..];
  }

  method LastBlock(message: seq<byte>, k1: Block, k2: Block) returns (last: Block)
    ensures last == LastInput(message, k1, k2)
  {
    if |message| > 0 && |message| % 16 == 0 {
      last := FullLastBlock(message[|message| - 16..], k1);
    } else {
      last := PaddedLastBlock(message[|message| / 16 * 16..], k2);
    }
  }

  /** The CBC loop over the first `n` blocks, on a zeroed state. */
  method ChainBlocks(e: Cipher, key: Block, message: seq<byte>, n: nat) returns (x: array<byte>)
    requires 16 * n <= |message|
    ensures fresh(x) && x.Length == 16
    ensures x[..] == Chain(e, key, message, n)
  {
    x := new byte[16](_ => 0);
    assert x[..] == Zeros(16);
    for i := 0 to n
      invariant x[..] == Chain(e, key, message, i)
    {
      XorBytes(x, message[16 * i..16 * (i + 1)]);
      Encrypt(e, key, x);
    }
  }

  /** computeAESCMAC: for every message, key and block function, the MAC of RFC 4493. */
  method ComputeAesCmac(e: Cipher, message: seq<byte>, key: seq<byte>) returns (x: array<byte>)
    ensures fresh(x)
    ensures x[..] == Mac(e, FitKey(key), message)
  {
    var k := FitKey(key);
    var k1, k2 := GenerateSubkeys(e, k);
    var last := LastBlock(message, k1, k2);
    x := ChainBlocks(e, k, message, BlockCount(message) - 1);
    XorBytes(x, last);
    Encrypt(e, k, x);
  }

  /** block.Encrypt(x, x) */
  method Encrypt(e: Cipher, key: Block, x: array<byte>)
    requires x.Length == 16
    modifies x
    ensures x[..] == e(key, old(x[..]))
  {
    var out := e(key, x[..]);
    forall i | 0 <= i < 16 {
      x[i] := out[i];
    }
    assert x[..] == out;
  }

  // ---- What the definitions mean ----

  /** Exclusive or undoes itself. */
  lemma {:induction false} XorBitsTwice(a: nat, b: nat, n: nat)
    requires a < Pow2(n)
    ensures XorBits(XorBits(a, b, n), b, n) == a
  {
    if n > 0 {
      var y := XorBits(a / 2, b / 2, n - 1);
      XorBitsTwice(a / 2, b / 2, n - 1);
      BitTwice(a, b, y);
    }
  }

  lemma BitTwice(a: nat, b: nat, y: nat)
    ensures var x := (a + b) % 2 + 2 * y; x / 2 == y && (x + b) % 2 == a % 2
  {
  }

  lemma XorTwice(a: byte, b: byte)
    ensures Xor8(Xor8(a, b), b) == a
  {
    Pow2Byte();
    XorBitsTwice(a as nat, b as nat, 8);
  }

  /** The key is cut to 16 bytes, or filled up with zeros. */
  lemma FitKeyMeans(key: seq<byte>)
    ensures forall i :: 0 <= i < 16 ==> FitKey(key)[i] == if i < |key| then key[i] else 0
  {
  }

  /** A subkey is the doubled string, with 0x87 added to its last byte when a bit was shifted out. */
  lemma SubkeyMeans(l: Block)
    ensures var d := ToBE(2 * FromBE(l), 16);
            Subkey(l) == if l[0] < 128 then d else d[15 := Xor8(d[15], 0x87)]
  {
    TopBit(l);
    hide ToBE, FromBE, Pow256, XorInto, Xor8;
    XorRb(ToBE(2 * FromBE(l), 16));
  }

  /** The last block: completed with K1 if it is full, padded with 0x80 and zeros and completed with K2 if not. */
  lemma LastInputMeans(a: seq<byte>, b: seq<byte>, k1: Block, k2: Block)
    requires |a| % 16 == 0
    ensures |b| == 16 ==> LastInput(a + b, k1, k2) == XorInto(b, k1)
    ensures |b| < 16 && (|b| > 0 || a == []) ==> LastInput(a + b, k1, k2) == XorInto(b + [0x80] + Zeros(15 - |b|), k2)
  {
    hide XorInto;
    var m := a + b;
    if |b| == 16 {
      assert m[|m| - 16..] == b;
    } else if |b| < 16 && (|b| > 0 || a == []) {
      assert |m| / 16 * 16 == |a|;
      assert m[|a|..] == b;
    }
  }

  /** The MAC of two full blocks, of one, and of the empty message, written out. */
  lemma MacMeans(e: Cipher, key: Block, a: Block, b: Block)
    ensures var k1 := Subkey(e(key, Zeros(16)));
            && Mac(e, key, a + b) == e(key, XorInto(e(key, XorInto(Zeros(16), a)), XorInto(b, k1)))
            && Mac(e, key, b) == e(key, XorInto(Zeros(16), XorInto(b, k1)))
            && Mac(e, key, []) == e(key, XorInto(Zeros(16), XorInto([0x80] + Zeros(15), Subkey(k1))))
  {
    hide XorInto, Subkey;
    var k1 := Subkey(e(key, Zeros(16)));
    LastInputMeans(a, b, k1, Subkey(k1));
    LastInputMeans([], b, k1, Subkey(k1));
    LastInputMeans([], [], k1, Subkey(k1));
    assert [] + b == b && [] + [0x80] + Zeros(15) == [0x80] + Zeros(15);
    ChainOne(e, key, a + b);
    ChainNone(e, key, b);
    ChainNone(e, key, []);
    assert (a + b)[0..16] == a;
  }

  lemma ChainNone(e: Cipher, key: Block, m: seq<byte>)
    ensures Chain(e, key, m, 0) == Zeros(16)
  {
  }

  lemma ChainOne(e: Cipher, key: Block, m: seq<byte>)
    requires |m| >= 16
    ensures Chain(e, key, m, 1) == e(key, XorInto(Zeros(16), m[0..16]))
  {
    hide XorInto;
    ChainNone(e, key, m);
  }

  /** Each further block goes through the cipher with the chain so far. */
  lemma ChainMore(e: Cipher, key: Block, m: seq<byte>, n: nat)
    requires 16 * (n + 1) <= |m|
    ensures Chain(e, key, m, n + 1) == e(key, XorInto(Chain(e, key, m, n), m[16 * n..16 * n + 16]))
  {
    hide XorInto;
  }
}
