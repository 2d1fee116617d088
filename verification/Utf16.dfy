/**
 UTF-16LE strings as SMB2 carries them: the surrogate arithmetic of sections 2.1 and 2.2
 of RFC 2781, and the two packing loops of the wire codec.
 */
module Utf16 {
  import opened Bytes

  /** A Unicode scalar value. */
  type scalar = x: nat | x < 0x110000 && !(0xD800 <= x < 0xE000)

  newtype unit16 = x: int | 0 <= x < 0x1_0000

  const REPLACEMENT: scalar := 0xFFFD

  predicate IsHigh(u: unit16) { 0xD800 <= u < 0xDC00 }
  predicate IsLow(u: unit16) { 0xDC00 <= u < 0xE000 }

  /** One code unit below U+10000, a surrogate pair above. */
  function EncodeScalar(v: scalar): (us: seq<unit16>)
    ensures |us| == if v < 0x10000 then 1 else 2
  {
    if v < 0x10000 then [v as unit16]
    else [(0xD800 + (v - 0x10000) / 0x400) as unit16, (0xDC00 + (v - 0x10000) % 0x400) as unit16]
  }

  function EncodeUnits(s: seq<scalar>): seq<unit16> {
    if s == [] then [] else EncodeScalar(s[0]) + EncodeUnits(s[1..])
  }

  /** Unpaired surrogates decode to U+FFFD. */
  function DecodeUnits(us: seq<unit16>): seq<scalar> {
    if us == [] then []
    else if IsHigh(us[0]) && |us| > 1 && IsLow(us[1]) then
      [(us[0] as nat - 0xD800) * 0x400 + (us[1] as nat - 0xDC00) + 0x10000] + DecodeUnits(us[2..])
    else if IsHigh(us[0]) || IsLow(us[0]) then [REPLACEMENT] + DecodeUnits(us[1..])
    else [us[0] as nat] + DecodeUnits(us[1..])
  }

  function Pack(us: seq<unit16>): (bs: seq<byte>)
    ensures |bs| == 2 * |us|
  {
    if us == [] then [] else Pack(us[..|us| - 1]) + LE(us[|us| - 1] as nat, 2)
  }

  /** The code units of a byte string; an odd last byte is ignored. */
  function Unpack(bs: seq<byte>): (us: seq<unit16>)
    ensures |us| == |bs| / 2
  {
    seq(|bs| / 2, i requires 0 <= i < |bs| / 2 => UnitAt(bs, i))
  }

  function UnitAt(bs: seq<byte>, i: nat): unit16
    requires 2 * i + 2 <= |bs|
  {
    Pow256Widths();
    FromLE(bs[2 * i..2 * i + 2]) as unit16
  }

  function StripFinalZero<T(==)>(s: seq<T>, zero: T): seq<T> {
    if s != [] && s[|s| - 1] == zero then s[..|s| - 1] else s
  }

  function EncodeBytes(s: seq<scalar>): seq<byte> {
    Pack(EncodeUnits(s))
  }

  function DecodeBytes(bs: seq<byte>): seq<scalar> {
    DecodeUnits(StripFinalZero(Unpack(bs), 0))
  }

  // ---- Round trip ----

  lemma {:induction false} PackedUnit(us: seq<unit16>, i: nat)
    requires i < |us|
    ensures UnitAt(Pack(us), i) == us[i]
  {
    Pow256Widths();
    var init, last := us[..|us| - 1], LE(us[|us| - 1] as nat, 2);
    if i < |us| - 1 {
      PackedUnit(init, i);
      assert Pack(us)[2 * i..2 * i + 2] == Pack(init)[2 * i..2 * i + 2];
    } else {
      LERoundTrip(us[i] as nat, 2);
      assert Pack(us)[2 * i..2 * i + 2] == last;
    }
  }

  lemma UnpackPack(us: seq<unit16>)
    ensures Unpack(Pack(us)) == us
  {
    forall i | 0 <= i < |us|
      ensures Unpack(Pack(us))[i] == us[i]
    {
      PackedUnit(us, i);
    }
  }

  lemma {:induction false} UnitsRoundTrip(s: seq<scalar>)
    ensures DecodeUnits(EncodeUnits(s)) == s
  {
    if s == [] {
    } else {
      UnitsRoundTrip(s[1..]);
      var head, tail := EncodeScalar(s[0]), EncodeUnits(s[1..]);
      var us := head + tail;
      if s[0] < 0x10000 {
        assert us[1..] == tail;
      } else {
        assert us[2..] == tail;
        assert us[0] == head[0] && us[1] == head[1];
      }
    }
  }

  lemma {:induction false} EncodeUnitsAppend(a: seq<scalar>, v: scalar)
    ensures EncodeUnits(a + [v]) == EncodeUnits(a) + EncodeScalar(v)
  {
    if a == [] {
      assert a + [v] == [v];
      assert [v][1..] == [];
    } else {
      EncodeUnitsAppend(a[1..], v);
      assert (a + [v])[1..] == a[1..] + [v];
    }
  }

  /** Only a string that ends in U+0000 encodes to units that end in zero. */
  lemma {:induction false} StripCommutes(s: seq<scalar>)
    ensures StripFinalZero(EncodeUnits(s), 0) == EncodeUnits(StripFinalZero(s, 0))
  {
    if s != [] {
      var init, v := s[..|s| - 1], s[|s| - 1];
      assert s == init + [v];
      EncodeUnitsAppend(init, v);
      var us := EncodeUnits(s);
      assert us[|us| - 1] == EncodeScalar(v)[|EncodeScalar(v)| - 1];
      if v == 0 {
        assert us[..|us| - 1] == EncodeUnits(init);
      }
    }
  }

  /** Decoding the encoding of any string gives it back, less one final U+0000 if it ended in one. */
  lemma {:induction false} RoundTrip(s: seq<scalar>)
    ensures DecodeBytes(EncodeBytes(s)) == StripFinalZero(s, 0)
  {
    UnpackPack(EncodeUnits(s));
    StripCommutes(s);
    UnitsRoundTrip(StripFinalZero(s, 0));
  }

  // ---- The loops of the wire codec ----

  method EncodeStringToUTF16LE(s: seq<scalar>) returns (buf: array<byte>)
    ensures fresh(buf)
    ensures buf[..] == EncodeBytes(s)
    ensures DecodeBytes(buf[..]) == StripFinalZero(s, 0)
  {
    var units := EncodeUnits(s);
    buf := new byte[|units| * 2];
    for i := 0 to |units|
      invariant buf[..2 * i] == Pack(units[..i])
    {
      var u := units[i] as int;
      buf[2 * i] := (u % 256) as byte;
      buf[2 * i + 1] := (u / 256) as byte;
      assert buf[2 * i..2 * i + 2] == LE(u, 2) by {
        assert LE(u, 2) == [(u % 256) as byte] + LE(u / 256, 1);
        assert LE(u / 256, 1) == [(u / 256 % 256) as byte] + LE(u / 256 / 256, 0);
      }
      assert units[..i + 1][..i] == units[..i];
      assert buf[..2 * (i + 1)] == buf[..2 * i] + buf[2 * i..2 * i + 2];
    }
    assert units[..|units|] == units;
    assert buf[..] == buf[..2 * |units|];
    RoundTrip(s);
  }

  method DecodeUTF16LEToString(input: seq<byte>) returns (s: seq<scalar>)
    ensures s == DecodeBytes(input)
  {
    if |input| == 0 {
      return [];
    }
    var data := input;
    if |data| % 2 != 0 {
      data := data[..|data| - 1];
    }
    var runes := new unit16[|data| / 2];
    for i := 0 to runes.Length
      invariant forall k :: 0 <= k < i ==> runes[k] == UnitAt(input, k)
    {
      Pow256Widths();
      assert data[2 * i..2 * i + 2] == input[2 * i..2 * i + 2];
      runes[i] := FromLE(data[2 * i..2 * i + 2]) as unit16;
    }
    assert runes[..] == Unpack(input);
    var us := runes[..];
    if |us| > 0 && us[|us| - 1] == 0 {
      us := us[..|us| - 1];
    }
    s := DecodeUnits(us);
  }

  // ---- The bytes on the wire ----

  lemma PackAppend(us: seq<unit16>, u: unit16)
    ensures Pack(us + [u]) == Pack(us) + LE(u as nat, 2)
  {
    assert (us + [u])[..|us|] == us;
  }

  lemma {:induction false} PackConcat(a: seq<unit16>, b: seq<unit16>)
    ensures Pack(a + b) == Pack(a) + Pack(b)
    decreases |b|
  {
    hide LE, Pack;
    if b == [] {
      PackNothing();
      assert a + b == a;
    } else {
      var init, u := b[..|b| - 1], b[|b| - 1];
      PackConcat(a, init);
      PackAppend(a + init, u);
      PackAppend(init, u);
      assert a + b == a + init + [u] && b == init + [u];
      assert Pack(a) + Pack(init) + LE(u as nat, 2) == Pack(a) + (Pack(init) + LE(u as nat, 2));
    }
  }

  lemma PackNothing()
    ensures Pack([]) == []
  {
  }

  lemma TwoBytes(u: unit16)
    ensures Pack([u]) == [(u as nat % 256) as byte, (u as nat / 256) as byte]
  {
    assert [u][..0] == [];
    assert Pack([u]) == Pack([]) + LE(u as nat, 2);
    assert LE(u as nat, 2) == [(u as nat % 256) as byte] + LE(u as nat / 256, 1);
    assert LE(u as nat / 256, 1) == [(u as nat / 256 % 256) as byte] + LE(u as nat / 256 / 256, 0);
  }

  /** A string is the bytes of its scalar values in turn. */
  lemma EncodeConcat(v: scalar, s: seq<scalar>)
    ensures EncodeBytes([v] + s) == EncodeBytes([v]) + EncodeBytes(s)
  {
    assert ([v] + s)[1..] == s && [v][1..] == [];
    assert EncodeUnits([v]) == EncodeScalar(v) + EncodeUnits([]) == EncodeScalar(v);
    PackConcat(EncodeScalar(v), EncodeUnits(s));
  }

  /** Below U+10000 two bytes, low byte first; above, a high and then a low surrogate. */
  lemma EncodeMeans(v: scalar)
    ensures v < 0x1_0000 ==> EncodeBytes([v]) == [(v % 256) as byte, (v / 256) as byte]
    ensures v >= 0x1_0000 ==>
              var hi, lo := 0xD800 + (v - 0x1_0000) / 1024, 0xDC00 + (v - 0x1_0000) % 1024;
              EncodeBytes([v]) == [(hi % 256) as byte, (hi / 256) as byte, (lo % 256) as byte, (lo / 256) as byte]
  {
    assert [v][1..] == [];
    assert EncodeUnits([v]) == EncodeScalar(v) + EncodeUnits([]) == EncodeScalar(v);
    if v < 0x1_0000 {
      TwoBytes(v as unit16);
    } else {
      var us := EncodeScalar(v);
      TwoBytes(us[0]);
      TwoBytes(us[1]);
      PackConcat([us[0]], [us[1]]);
      assert us == [us[0]] + [us[1]];
    }
  }

  /** A surrogate without its partner decodes to U+FFFD, and decoding goes on behind it. */
  lemma UnpairedMeans(u: unit16, us: seq<unit16>)
    requires IsLow(u) || (IsHigh(u) && (us == [] || !IsLow(us[0])))
    ensures DecodeUnits([u] + us) == [0xFFFD] + DecodeUnits(us)
  {
    assert ([u] + us)[1..] == us;
  }
}
