/** Bytes, 32-bit words and their little-endian encoding.

The driver assembles words with shifts and ors and takes them apart with shifts and masks. The model
computes with integers; the lemmas of module BitForms show, for every input, that the integer forms
are what the bit operations compute. */
module Bytes {

  type byte = b: int | 0 <= b < 256
  type word = w: int | 0 <= w < 0x1_0000_0000
  type int8 = i: int | -128 <= i < 128

  const MAX_WORD: word := 0xFFFF_FFFF

  datatype Option<+T> = None | Some(value: T)

  /** The conversion of an unsigned byte to a signed one: the only signed byte congruent to it. */
  function Signed(b: byte): (i: int8)
    ensures (b as int - i as int) % 256 == 0
  {
    if b < 128 then b else b - 256
  }

  function Unsigned(i: int8): (b: byte)
    ensures Signed(b) == i
  {
    if i < 0 then i + 256 else i
  }

  /** 256 to the power n. */
  function Pow256(n: nat): (p: nat)
    ensures p > 0
  {
    if n == 0 then 1 else 256 * Pow256(n - 1)
  }

  function FromLE(bs: seq<byte>): nat {
    if bs == [] then 0 else bs[0] + 256 * FromLE(bs[1..])
  }

  function ToLE(v: nat, n: nat): (bs: seq<byte>)
    ensures |bs| == n
  {
    if n == 0 then [] else [v % 256] + ToLE(v / 256, n - 1)
  }

  lemma {:induction false} FromLEBound(bs: seq<byte>)
    ensures FromLE(bs) < Pow256(|bs|)
  {
    if bs != [] {
      FromLEBound(bs[1..]);
    }
  }

  lemma {:induction false} FromToLE(v: nat, n: nat)
    requires v < Pow256(n)
    ensures FromLE(ToLE(v, n)) == v
  {
    if n > 0 {
      FromToLE(v / 256, n - 1);
      assert ToLE(v, n)[1..] == ToLE(v / 256, n - 1);
    }
  }

  lemma {:induction false} ToFromLE(bs: seq<byte>)
    ensures ToLE(FromLE(bs), |bs|) == bs
  {
    if bs != [] {
      ToFromLE(bs[1..]);
      assert FromLE(bs) / 256 == FromLE(bs[1..]);
    }
  }

  /** Appending a most significant byte. */
  lemma {:induction false} FromLESnoc(bs: seq<byte>, b: byte)
    ensures FromLE(bs + [b]) == FromLE(bs) + b * Pow256(|bs|)
  {
    if bs == [] {
      assert [b][1..] == [];
    } else {
      FromLESnoc(bs[1..], b);
      assert (bs + [b])[1..] == bs[1..] + [b];
      assert 256 * (b * Pow256(|bs[1..]|)) == b * Pow256(|bs|);
    }
  }

  /** The sequence number in the first four bytes of a manufacturer payload. */
  function SeqOf(p: seq<byte>): (s: word)
    requires |p| >= 4
  {
    FourBytes(p[..4]);
    FromLE(p[..4])
  }

  lemma FourBytes(bs: seq<byte>)
    requires |bs| == 4
    ensures FromLE(bs) == bs[0] as int + 256 * bs[1] as int + 65536 * bs[2] as int + 16777216 * bs[3] as int
    ensures FromLE(bs) < 0x1_0000_0000
  {
    assert FromLE(bs) == bs[0] + 256 * FromLE(bs[1..]);
    assert bs[1..][1..] == bs[2..];
    assert bs[2..][1..] == bs[3..];
    assert bs[3..][1..] == [];
    assert FromLE(bs[2..]) == bs[2] + 256 * FromLE(bs[3..]);
    assert FromLE(bs[3..]) == bs[3];
  }

  lemma WordBytes(w: word)
    ensures ToLE(w, 4) == [w % 256, w / 256 % 256, w / 65536 % 256, w / 16777216 % 256]
    ensures FromLE(ToLE(w, 4)) == w
  {
    assert ToLE(w, 4) == [w % 256] + ToLE(w / 256, 3);
    assert ToLE(w / 256, 3) == [w / 256 % 256] + ToLE(w / 256 / 256, 2);
    assert ToLE(w / 65536, 2) == [w / 65536 % 256] + ToLE(w / 65536 / 256, 1);
    assert ToLE(w / 16777216, 1) == [w / 16777216 % 256] + ToLE(w / 16777216 / 256, 0);
    assert Pow256(4) == 256 * (256 * (256 * (256 * Pow256(0))));
    FromToLE(w, 4);
  }

  /** A word and its four bytes determine each other. */
  lemma SeqOfRoundTrip(p: seq<byte>)
    requires |p| >= 4
    ensures ToLE(SeqOf(p), 4) == p[..4]
  {
    ToFromLE(p[..4]);
  }

  lemma WordBytesInjective(v: word, w: word)
    requires ToLE(v, 4) == ToLE(w, 4)
    ensures v == w
  {
    WordBytes(v);
    WordBytes(w);
  }
}

/** The bit operations of the source, on bit vectors of the source's widths, and what they compute. */
module BitForms {
  import opened Bytes

  function ShiftOr(b0: bv8, b1: bv8, b2: bv8, b3: bv8): bv32 {
    (b0 as bv32) | ((b1 as bv32) << 8) | ((b2 as bv32) << 16) | ((b3 as bv32) << 24)
  }

  lemma ShiftOrIsPositional(b0: bv8, b1: bv8, b2: bv8, b3: bv8)
    ensures ((b0 as bv32) | ((b1 as bv32) << 8) | ((b2 as bv32) << 16) | ((b3 as bv32) << 24)) as int
            == b0 as int + 256 * b1 as int + 65536 * b2 as int + 16777216 * b3 as int
  {
  }

  lemma CompanyIdIsPositional(b0: bv8, b1: bv8)
    ensures ((b0 as bv16) | ((b1 as bv16) << 8)) as int == b0 as int + 256 * b1 as int
  {
  }

  /** Four bytes as a payload prefix. */
  function FourOf(b0: bv8, b1: bv8, b2: bv8, b3: bv8): (bs: seq<byte>)
    ensures |bs| == 4
  {
    [b0 as int, b1 as int, b2 as int, b3 as int]
  }

  /** The shift-or of four bytes is their little-endian value. */
  lemma ShiftOrIsFromLE(b0: bv8, b1: bv8, b2: bv8, b3: bv8)
    ensures ShiftOr(b0, b1, b2, b3) as int == FromLE(FourOf(b0, b1, b2, b3))
  {
    ShiftOrIsPositional(b0, b1, b2, b3);
    FourBytes(FourOf(b0, b1, b2, b3));
  }

  lemma ShiftMaskSplits(q: bv32)
    ensures ShiftOr((q & 0xFF) as bv8, ((q >> 8) & 0xFF) as bv8, ((q >> 16) & 0xFF) as bv8, ((q >> 24) & 0xFF) as bv8)
            == q
  {
  }

  /** Shifting and masking a word yields its little-endian bytes. */
  lemma ShiftMaskIsToLE(q: bv32)
    ensures FourOf((q & 0xFF) as bv8, ((q >> 8) & 0xFF) as bv8, ((q >> 16) & 0xFF) as bv8, ((q >> 24) & 0xFF) as bv8)
            == ToLE(q as int, 4)
  {
    var b0, b1 := (q & 0xFF) as bv8, ((q >> 8) & 0xFF) as bv8;
    var b2, b3 := ((q >> 16) & 0xFF) as bv8, ((q >> 24) & 0xFF) as bv8;
    ShiftMaskSplits(q);
    ShiftOrIsFromLE(b0, b1, b2, b3);
    ToFromLE(FourOf(b0, b1, b2, b3));
  }

  /** A switch status byte is its reserved bits, button mask and action bit; the source's masks and shift
  select them. */
  lemma StatusByte(reserved: bv3, mask: bv4, press: bv1)
    ensures (((reserved as bv8) << 5) | ((mask as bv8) << 1) | (press as bv8)) as int
            == 32 * reserved as int + 2 * mask as int + press as int
    ensures var s := ((reserved as bv8) << 5) | ((mask as bv8) << 1) | (press as bv8);
            && (s & 0xE0 != 0 <==> reserved != 0)
            && (s >> 1) & 0x0F == mask as bv8
            && s & 1 == press as bv8
  {
  }

  /** A TLV header byte is its size bits and type; the source's mask and shift select them. */
  lemma HeaderByte(size: bv2, kind: bv6)
    ensures (((size as bv8) << 6) | (kind as bv8)) as int == 64 * size as int + kind as int
    ensures var h := ((size as bv8) << 6) | (kind as bv8);
            h & 0x3F == kind as bv8 && h >> 6 == size as bv8
  {
  }

  /** An acceleration word is its status and three axes; the source's shifts and masks select them. */
  lemma AccelerationWord(st: bv2, x: bv10, y: bv10, z: bv10)
    ensures (((st as bv32) << 30) | ((x as bv32) << 20) | ((y as bv32) << 10) | (z as bv32)) as int
            == st as int * 0x4000_0000 + x as int * 0x10_0000 + y as int * 0x400 + z as int
    ensures var v := ((st as bv32) << 30) | ((x as bv32) << 20) | ((y as bv32) << 10) | (z as bv32);
            && v >> 30 == st as bv32
            && (v >> 20) & 0x3FF == x as bv32
            && (v >> 10) & 0x3FF == y as bv32
            && v & 0x3FF == z as bv32
  {
  }
}
