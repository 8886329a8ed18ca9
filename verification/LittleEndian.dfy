// Little-endian byte fields, as written and read by examples/esp32/esp32_p2p_gossip.c.
module LittleEndian {
  import opened Powers
  import opened Words
  import opened Cobs

  function ToBytes(value: nat, width: nat): (s: seq<byte>)
    ensures |s| == width
  {
    if width == 0 then [] else [value % 256] + ToBytes(value / 256, width - 1)
  }

  function FromBytes(s: seq<byte>): nat {
    if s == [] then 0 else s[0] + 256 * FromBytes(s[1..])
  }

  lemma {:induction false} FromBytesBelow(s: seq<byte>)
    ensures FromBytes(s) < Pow2(8 * |s|)
  {
    if s != [] {
      FromBytesBelow(s[1..]);
      Pow2Add(8, 8 * (|s| - 1));
      assert Pow2(8) == 256;
    }
  }

  lemma {:induction false} FromToBytes(value: nat, width: nat)
    requires value < Pow2(8 * width)
    ensures FromBytes(ToBytes(value, width)) == value
    decreases width
  {
    if width > 0 {
      BytePlace(width);
      FromToBytes(value / 256, width - 1);
      assert ToBytes(value, width)[1..] == ToBytes(value / 256, width - 1);
    }
  }

  lemma LowByte(b: byte, v: nat)
    ensures (b + 256 * v) % 256 == b && (b + 256 * v) / 256 == v
  {
  }

  lemma {:induction false} ToFromBytes(s: seq<byte>)
    ensures ToBytes(FromBytes(s), |s|) == s
  {
    if s != [] {
      ToFromBytes(s[1..]);
      LowByte(s[0], FromBytes(s[1..]));
      assert s == [s[0]] + s[1..];
    }
  }

  // value >> 8i
  function Shr8(value: nat, i: nat): nat
    decreases i
  {
    if i == 0 then value else Shr8(value / 256, i - 1)
  }

  lemma {:induction false} ByteAt(value: nat, width: nat, i: nat)
    requires i < width
    ensures ToBytes(value, width)[i] == Shr8(value, i) % 256
    decreases i
  {
    if i > 0 {
      ByteAt(value / 256, width - 1, i - 1);
    }
  }

  lemma Shift256(b: nat, p: nat)
    ensures 256 * (b * p) == b * (256 * p)
  {
  }

  lemma {:induction false} FromBytesAppend(s: seq<byte>, b: byte)
    ensures FromBytes(s + [b]) == FromBytes(s) + b * Pow2(8 * |s|)
  {
    if s == [] {
      assert [] + [b] == [b];
    } else {
      assert (s + [b])[1..] == s[1..] + [b];
      FromBytesAppend(s[1..], b);
      BytePlace(|s|);
      Shift256(b, Pow2(8 * (|s| - 1)));
    }
  }

  lemma Place256(b: nat, v: nat, p: nat, w: nat)
    ensures b + 256 * (v + p * w) == b + 256 * v + 256 * p * w
  {
  }

  lemma {:induction false} FromBytesConcat(s: seq<byte>, t: seq<byte>)
    ensures FromBytes(s + t) == FromBytes(s) + Pow2(8 * |s|) * FromBytes(t)
    decreases s
  {
    if s == [] {
      assert s + t == t;
    } else {
      assert (s + t)[1..] == s[1..] + t;
      FromBytesConcat(s[1..], t);
      BytePlace(|s|);
      Place256(s[0], FromBytes(s[1..]), Pow2(8 * (|s| - 1)), FromBytes(t));
    }
  }

  lemma BytePlace(n: nat)
    requires n > 0
    ensures Pow2(8 * n) == 256 * Pow2(8 * (n - 1))
  {
    Pow2Add(8, 8 * (n - 1));
    assert Pow2(8) == 256;
  }

  lemma PutStep(before: seq<byte>, field: seq<byte>, now: seq<byte>, at: nat, i: nat)
    requires at + |field| <= |before| && i < |field|
    requires now == before[..at] + field[..i] + before[at + i..]
    ensures now[at + i := field[i]] == before[..at] + field[..i + 1] + before[at + i + 1..]
  {
    assert field[..i + 1] == field[..i] + [field[i]];
    assert before[at + i..] == [before[at + i]] + before[at + i + 1..];
  }

  // The put loop, for fields of four and of eight bytes.
  method Put(dst: array<byte>, at: nat, value: nat, width: nat)
    requires at + width <= dst.Length
    modifies dst
    ensures dst[..] == old(dst[..])[..at] + ToBytes(value, width) + old(dst[..])[at + width..]
  {
    ghost var before, field := dst[..], ToBytes(value, width);
    for i := 0 to width
      invariant dst[..] == before[..at] + field[..i] + before[at + i..]
    {
      ByteAt(value, width, i);
      ghost var now := dst[..];
      PutStep(before, field, now, at, i);
      dst[at + i] := Shr8(value, i) % 256;
      assert dst[..] == now[at + i := field[i]];
    }
  }

  // value | b << 8i
  function PutIn(value: nat, b: byte, i: nat): nat {
    Or(value, b * Pow2(8 * i))
  }

  lemma GetStep(s: seq<byte>, b: byte)
    ensures PutIn(FromBytes(s), b, |s|) == FromBytes(s + [b])
  {
    FromBytesAppend(s, b);
    FromBytesBelow(s);
    OrShifted(FromBytes(s), b, 8 * |s|);
  }

  // The get loop: or each byte into its place.
  method Get(src: array<byte>, at: nat, width: nat) returns (value: nat)
    requires at + width <= src.Length
    ensures value == FromBytes(src[at..at + width])
  {
    ghost var field := src[at..at + width];
    value := 0;
    for i := 0 to width
      invariant value == FromBytes(field[..i])
    {
      var b := src[at + i];
      assert b == field[i] && field[..i + 1] == field[..i] + [b];
      GetStep(field[..i], b);
      value := PutIn(value, b, i);
    }
    assert field[..width] == field;
  }
}
