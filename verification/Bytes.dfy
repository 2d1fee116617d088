/**
 Byte strings and the fixed-width integer codecs of `encoding/binary`, the `ByteWriter`
 that appends little-endian fields, and records described by the widths of their fields.
 */
module Bytes {

  newtype byte = x: int | 0 <= x < 256

  type u32 = x: nat | x < 0x1_0000_0000
  type u64 = x: nat | x < 0x1_0000_0000_0000_0000

  function Pow256(n: nat): (p: nat)
    ensures p >= 1
  {
    if n == 0 then 1 else 256 * Pow256(n - 1)
  }

  /** The widths used on the wire. */
  lemma Pow256Widths()
    ensures Pow256(1) == 0x100
    ensures Pow256(2) == 0x1_0000
    ensures Pow256(3) == 0x100_0000
    ensures Pow256(4) == 0x1_0000_0000
    ensures Pow256(8) == 0x1_0000_0000_0000_0000
  {
    assert Pow256(3) == 256 * Pow256(2);
    assert Pow256(4) == 256 * Pow256(3);
    assert Pow256(6) == 256 * 256 * Pow256(4);
    assert Pow256(8) == 256 * 256 * Pow256(6);
  }

  /** Little-endian, `n` bytes, higher bits dropped (as PutUint16/32/64 do). */
  function LE(v: nat, n: nat): (s: seq<byte>)
    ensures |s| == n
  {
    if n == 0 then [] else [(v % 256) as byte] + LE(v / 256, n - 1)
  }

  function FromLE(s: seq<byte>): (v: nat)
    ensures v < Pow256(|s|)
  {
    if s == [] then 0 else s[0] as nat + 256 * FromLE(s[1..])
  }

  lemma {:induction false} LERoundTrip(v: nat, n: nat)
    requires v < Pow256(n)
    ensures FromLE(LE(v, n)) == v
  {
    if n == 0 {
    } else {
      LERoundTrip(v / 256, n - 1);
      assert LE(v, n)[1..] == LE(v / 256, n - 1);
    }
  }

  /** Big-endian value of a byte string. */
  /** Byte `i` of a little-endian integer is its digit of weight 256^i. */
  lemma {:induction false} LEByte(v: nat, n: nat, i: nat)
    requires i < n
    ensures LE(v, n)[i] as nat == v / Pow256(i) % 256
  {
    if i > 0 {
      LEByte(v / 256, n - 1, i - 1);
      DivTwice(v, Pow256(i - 1));
    }
  }

  lemma DivTwice(v: nat, d: nat)
    requires d >= 1
    ensures v / 256 / d == v / (256 * d)
  {
    var q := v / 256 / d;
    var r := v / 256 % d;
    assert v == 256 * (d * q + r) + v % 256;
    assert v == (256 * d) * q + (256 * r + v % 256);
    QuotientIs(v, 256 * d, q, 256 * r + v % 256);
  }

  lemma QuotientIs(v: nat, d: nat, q: nat, r: nat)
    requires d >= 1 && r < d && v == d * q + r
    ensures v / d == q
  {
    if v / d < q {
      QuotientGap(d, v / d, q);
    } else if v / d > q {
      QuotientGap(d, q, v / d);
    }
  }

  lemma QuotientGap(d: nat, a: nat, b: nat)
    requires a < b
    ensures d * b >= d * a + d
  {
    assert d * b == d * a + d * (b - a);
    TimesAtLeast(d, b - a);
  }

  lemma {:induction false} TimesAtLeast(d: nat, k: nat)
    requires k >= 1
    ensures d * k >= d
  {
    if k > 1 {
      TimesAtLeast(d, k - 1);
      assert d * k == d * (k - 1) + d;
    }
  }

  function FromBE(s: seq<byte>): (v: nat)
    ensures v < Pow256(|s|)
  {
    if s == [] then 0 else 256 * FromBE(s[..|s| - 1]) + s[|s| - 1] as nat
  }

  function Zeros(n: nat): (s: seq<byte>)
    ensures |s| == n && forall i :: 0 <= i < n ==> s[i] == 0
  {
    seq(n, _ => 0)
  }

  /** What copying `src` over `dst` at offset `at` leaves in `dst`. */
  function Splice(dst: seq<byte>, at: nat, src: seq<byte>): (r: seq<byte>)
    requires at + |src| <= |dst|
    ensures |r| == |dst|
  {
    dst[..at] + src + dst[at + |src|..]
  }

  // ---- Records: a fixed sequence of little-endian fields ----

  datatype Field = Field(width: nat, value: nat)

  predicate FieldsFit(fs: seq<Field>) {
    forall i :: 0 <= i < |fs| ==> fs[i].value < Pow256(fs[i].width)
  }

  function Widths(fs: seq<Field>): (ws: seq<nat>)
    ensures |ws| == |fs|
  {
    seq(|fs|, i requires 0 <= i < |fs| => fs[i].width)
  }

  function Values(fs: seq<Field>): (vs: seq<nat>)
    ensures |vs| == |fs|
  {
    seq(|fs|, i requires 0 <= i < |fs| => fs[i].value)
  }

  function Sum(ws: seq<nat>): nat {
    if ws == [] then 0 else ws[0] + Sum(ws[1..])
  }

  function EncodeFields(fs: seq<Field>): (s: seq<byte>)
    ensures |s| == Sum(Widths(fs))
  {
    if fs == [] then []
    else
      assert Widths(fs)[1..] == Widths(fs[1..]);
      LE(fs[0].value, fs[0].width) + EncodeFields(fs[1..])
  }

  /** Reads consecutive little-endian integers of the given widths. */
  function DecodeFields(ws: seq<nat>, s: seq<byte>): (vs: seq<nat>)
    requires Sum(ws) <= |s|
    ensures |vs| == |ws|
    ensures forall i :: 0 <= i < |ws| ==> vs[i] < Pow256(ws[i])
  {
    if ws == [] then [] else [FromLE(s[..ws[0]])] + DecodeFields(ws[1..], s[ws[0]..])
  }

  /** A reader that knows only the widths recovers every value, whatever follows the record. */
  lemma {:induction false} FieldsRoundTrip(fs: seq<Field>, rest: seq<byte>)
    requires FieldsFit(fs)
    ensures DecodeFields(Widths(fs), EncodeFields(fs) + rest) == Values(fs)
  {
    hide FieldsFit, LE;
    if fs == [] {
      assert Widths(fs) == [] && Values(fs) == [];
    } else {
      hide EncodeFields, DecodeFields;
      EncodeFirst(fs);
      FieldsRoundTrip(fs[1..], rest);
      FieldsCons(fs[0], fs[1..], rest);
    }
  }

  lemma FieldsCons(f: Field, fs: seq<Field>, rest: seq<byte>)
    requires f.value < Pow256(f.width) && DecodeFields(Widths(fs), EncodeFields(fs) + rest) == Values(fs)
    ensures Sum([f.width] + Widths(fs)) <= |LE(f.value, f.width) + EncodeFields(fs) + rest|
    ensures DecodeFields([f.width] + Widths(fs), LE(f.value, f.width) + EncodeFields(fs) + rest) == [f.value] + Values(fs)
  {
    hide LE, EncodeFields, DecodeFields;
    LERoundTrip(f.value, f.width);
    DecodeFirst(f.width, Widths(fs), LE(f.value, f.width), EncodeFields(fs) + rest);
    assert LE(f.value, f.width) + EncodeFields(fs) + rest == LE(f.value, f.width) + (EncodeFields(fs) + rest);
  }

  lemma EncodeFirst(fs: seq<Field>)
    requires fs != [] && FieldsFit(fs)
    ensures EncodeFields(fs) == LE(fs[0].value, fs[0].width) + EncodeFields(fs[1..])
    ensures Widths(fs) == [fs[0].width] + Widths(fs[1..]) && Values(fs) == [fs[0].value] + Values(fs[1..])
    ensures FieldsFit(fs[1..]) && fs[0].value < Pow256(fs[0].width)
  {
    FitsRest(fs);
    hide LE, FieldsFit, Pow256;
  }

  lemma FitsRest(fs: seq<Field>)
    requires fs != [] && FieldsFit(fs)
    ensures FieldsFit(fs[1..]) && fs[0].value < Pow256(fs[0].width)
  {
    hide Pow256;
    assert forall i :: 0 <= i < |fs[1..]| ==> fs[1..][i] == fs[i + 1];
  }

  lemma DecodeFirst(w: nat, ws: seq<nat>, head: seq<byte>, tail: seq<byte>)
    requires |head| == w && Sum(ws) <= |tail|
    ensures Sum([w] + ws) <= |head + tail|
    ensures DecodeFields([w] + ws, head + tail) == [FromLE(head)] + DecodeFields(ws, tail)
  {
    hide FromLE;
    assert ([w] + ws)[1..] == ws && (head + tail)[..w] == head && (head + tail)[w..] == tail;
  }

  // ---- Alignment and the growing buffer ----

  /** Bytes missing to the next multiple of eight. */
  function PadTo8(offset: nat): (pad: nat)
    ensures pad < 8
  {
    if offset % 8 == 0 then 0 else 8 - offset % 8
  }

  function AlignTo8(v: nat): (r: nat)
    ensures v <= r
  {
    (v + 7) / 8 * 8
  }

  lemma AlignFacts(v: nat)
    ensures AlignTo8(v) % 8 == 0
    ensures AlignTo8(v) == v + PadTo8(v)
  {
  }

  /** The least multiple of eight that is not below the value. */
  lemma AlignIsLeast(v: nat)
    ensures AlignTo8(v) % 8 == 0 && v <= AlignTo8(v) < v + 8
  {
  }

  /** Padding after an aligned prefix depends only on what follows it. */
  lemma PadAfterAligned(base: nat, v: nat)
    requires base % 8 == 0
    ensures PadTo8(base + v) == PadTo8(v)
  {
  }

  class ByteWriter {
    var data: seq<byte>

    constructor ()
      ensures data == []
    {
      data := [];
    }

    method WriteBytes(b: seq<byte>)
      modifies this
      ensures data == old(data) + b
    {
      data := data + b;
    }

    method WriteZeros(n: nat)
      modifies this
      ensures data == old(data) + Zeros(n)
    {
      for i := 0 to n
        invariant data == old(data) + Zeros(i)
      {
        data := data + [0];
      }
    }

    method WritePadTo8()
      modifies this
      ensures data == old(data) + Zeros(PadTo8(|old(data)|))
    {
      WriteZeros(PadTo8(|data|));
    }

    /** Backpatches four bytes; out of range, it does nothing. */
    method SetUint32At(pos: nat, v: nat)
      modifies this
      ensures data == if pos + 4 <= |old(data)| then Splice(old(data), pos, LE(v, 4)) else old(data)
    {
      if pos + 4 <= |data| {
        data := Splice(data, pos, LE(v, 4));
      }
    }
  }

  /** The first byte of a big-endian string has the highest weight. */
  lemma {:induction false} FromBEFirst(b: byte, s: seq<byte>)
    ensures FromBE([b] + s) == b as nat * Pow256(|s|) + FromBE(s)
  {
    var t := [b] + s;
    if s == [] {
      assert t == [b] && [b][..0] == [];
      assert FromBE([b]) == 256 * FromBE([]) + b as nat;
    } else {
      var init, last := s[..|s| - 1], s[|s| - 1];
      FromBEFirst(b, init);
      assert t[..|t| - 1] == [b] + init && t[|t| - 1] == last;
      assert FromBE(t) == 256 * FromBE([b] + init) + last as nat;
      Times256(b as nat, Pow256(|init|), FromBE(init));
    }
  }

  lemma Times256(b: nat, p: nat, x: nat)
    ensures 256 * (b * p + x) == b * (256 * p) + 256 * x
  {
  }
}
