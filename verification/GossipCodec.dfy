// The encode and decode loops of examples/esp32/esp32_p2p_gossip.c, proved against
// the frames of module Gossip.
module GossipCodec {
  import opened WordTypes
  import opened Cobs
  import opened LittleEndian
  import opened Gossip

  // ---------- raw layout ----------

  // memcpy of a field into the buffer
  method Copy(dst: array<byte>, at: nat, field: seq<byte>)
    requires at + |field| <= dst.Length
    modifies dst
    ensures dst[..] == old(dst[..])[..at] + field + old(dst[..])[at + |field|..]
  {
    forall i | 0 <= i < |field| {
      dst[at + i] := field[i];
    }
  }

  // The raw image after each write, and what the last one holds.
  lemma Assembled(zeros: seq<byte>, a: seq<byte>, b: seq<byte>, phase: byte, board: seq<byte>, digest: seq<byte>,
                  s1: seq<byte>, s2: seq<byte>, s3: seq<byte>, s4: seq<byte>, s5: seq<byte>)
    requires |zeros| == 64 && zeros[13..16] == [0, 0, 0]
    requires |a| == 4 && |b| == 8 && |board| == 32 && |digest| == 16
    requires s1 == a + zeros[4..] && s2 == s1[..4] + b + s1[12..] && s3 == s2[12 := phase]
    requires s4 == s3[..16] + board + s3[48..] && s5 == s4[..48] + digest
    ensures s5 == a + b + [phase, 0, 0, 0] + board + digest
  {
    assert s2 == a + b + zeros[12..];
    var low := a + b + [phase] + [0, 0, 0];
    assert s3[..16] == a + b + [phase] + zeros[13..16] == low;
    assert low == a + b + [phase, 0, 0, 0];
    assert s4[..48] == low + board;
  }

  method PackRaw(p: Packet) returns (raw: array<byte>)
    ensures fresh(raw) && raw[..] == Pack(p)
  {
    raw := new byte[RAW_SIZE](_ => 0);
    ghost var zeros := raw[..];
    assert zeros[13..16] == [zeros[13], zeros[14], zeros[15]];
    Put(raw, 0, p.sourceNodeId, 4);
    ghost var s1 := raw[..];
    Put(raw, 4, p.stepAccumulator, 8);
    ghost var s2 := raw[..];
    raw[12] := p.omnionPhase;
    ghost var s3 := raw[..];
    Copy(raw, 16, p.board);
    ghost var s4 := raw[..];
    Copy(raw, 48, p.digest);
    Assembled(zeros, ToBytes(p.sourceNodeId, 4), ToBytes(p.stepAccumulator, 8), p.omnionPhase, p.board, p.digest,
              s1, s2, s3, s4, raw[..]);
  }

  method UnpackRaw(raw: array<byte>) returns (p: Packet)
    requires raw.Length == RAW_SIZE
    ensures p == Unpack(raw[..])
  {
    FieldsFit(raw[..]);
    assert raw[..][0..4] == raw[0..4] && raw[..][4..12] == raw[4..12];
    assert raw[..][16..48] == raw[16..48] && raw[..][48..64] == raw[48..64];
    var source := Get(raw, 0, 4);
    var step := Get(raw, 4, 8);
    p := Packet(source, step, raw[12], raw[16..48], raw[48..64]);
  }

  // ---------- encode ----------

  // Stuffing has consumed d[..i]; the block opened at j is still open.
  ghost predicate Open(encoded: seq<byte>, wire: seq<byte>, d: seq<byte>, j: nat, i: nat) {
    && j <= i <= |d| < 254 && |d| + 2 <= |wire|
    && wire[j + 1..i + 1] == d[j..i]
    && encoded == wire[..j] + EncodeFrom(d[j..i], d[i..], false)
  }

  // Writing the code byte back puts the finished block behind what precedes it.
  lemma WriteBack(wire: seq<byte>, j: nat, block: seq<byte>, code: byte, tail: seq<byte>)
    requires j + 1 + |block| <= |wire| && wire[j + 1..j + 1 + |block|] == block
    ensures wire[..j] + ([code] + block + tail) == wire[j := code][..j + 1 + |block|] + tail
  {
    assert wire[j := code][..j + 1 + |block|] == wire[..j] + [code] + block;
  }

  lemma CloseStep(encoded: seq<byte>, wire: seq<byte>, d: seq<byte>, j: nat, i: nat)
    requires Open(encoded, wire, d, j, i) && i < |d| && d[i] == 0
    ensures Open(encoded, wire[j := i - j + 1], d, i + 1, i + 1)
  {
    assert d[i..][1..] == d[i + 1..];
    WriteBack(wire, j, d[j..i], i - j + 1, EncodeFrom([], d[i + 1..], false));
  }

  lemma CopyStep(encoded: seq<byte>, wire: seq<byte>, d: seq<byte>, j: nat, i: nat)
    requires Open(encoded, wire, d, j, i) && i < |d| && d[i] != 0
    ensures Open(encoded, wire[i + 1 := d[i]], d, j, i + 1)
  {
    assert d[i..][1..] == d[i + 1..];
    assert d[j..i + 1] == d[j..i] + [d[i]];
    assert wire[i + 1 := d[i]][j + 1..i + 2] == wire[j + 1..i + 1] + [d[i]];
    assert wire[i + 1 := d[i]][..j] == wire[..j];
  }

  lemma FinishStep(encoded: seq<byte>, wire: seq<byte>, d: seq<byte>, j: nat)
    requires Open(encoded, wire, d, j, |d|)
    ensures wire[j := |d| - j + 1][|d| + 1 := 0][..|d| + 2] == encoded + [0]
  {
    LastTwo(wire, d[j..], j, encoded);
  }

  lemma LastTwo(wire: seq<byte>, block: seq<byte>, j: nat, encoded: seq<byte>)
    requires |block| < 254 && j + |block| + 2 <= |wire| && wire[j + 1..j + 1 + |block|] == block
    requires encoded == wire[..j] + ([|block| + 1] + block)
    ensures wire[j := |block| + 1][j + |block| + 1 := 0][..j + |block| + 2] == encoded + [0]
  {
    var last := wire[j := |block| + 1];
    assert last[..j + 1 + |block|] == encoded;
    assert last[j + |block| + 1 := 0][..j + |block| + 2] == last[..j + 1 + |block|] + [0];
  }

  // The stuffing loop.  The code byte of the open block is written back when the
  // block ends; it never exceeds 65.
  method Stuff(raw: array<byte>, wire: array<byte>) returns (length: nat)
    requires raw.Length == RAW_SIZE && WIRE_MAX <= wire.Length && raw != wire
    modifies wire
    ensures length == WIRE_MAX && wire[..length] == Wire(raw[..])
    ensures forall j :: WIRE_MAX <= j < wire.Length ==> wire[j] == old(wire[j])
  {
    ghost var d, encoded := raw[..], Encode(raw[..], false);
    var dstIdx, codeIdx, code: nat := 1, 0, 1;
    wire[0] := 0;
    ghost var w := wire[..];
    for i := 0 to RAW_SIZE
      invariant dstIdx == i + 1 && codeIdx + code == dstIdx && 1 <= code <= i + 1
      invariant w == wire[..] && Open(encoded, w, d, codeIdx, i)
      invariant forall j :: WIRE_MAX <= j < wire.Length ==> wire[j] == old(wire[j])
    {
      if raw[i] == 0 {
        CloseStep(encoded, w, d, codeIdx, i);
        wire[codeIdx] := code;
        w := w[codeIdx := code];
        codeIdx := dstIdx;
        dstIdx := dstIdx + 1;
        code := 1;
      } else {
        CopyStep(encoded, w, d, codeIdx, i);
        wire[dstIdx] := raw[i];
        w := w[dstIdx := d[i]];
        dstIdx := dstIdx + 1;
        code := code + 1;
      }
    }
    FinishStep(encoded, w, d, codeIdx);
    wire[codeIdx] := code;
    wire[dstIdx] := 0;
    w := w[codeIdx := code][dstIdx := 0];
    assert w == wire[..];
    length := dstIdx + 1;
    assert wire[..length] == w[..length];
  }

  method EncodeFrame(p: Packet, wire: array<byte>, cap: nat) returns (length: nat, status: Status)
    requires cap <= wire.Length
    modifies wire
    ensures cap < 66 ==> status == CorruptFrame && length == 0 && wire[..] == old(wire[..])
    ensures cap >= 66 ==> status == GossipOk && length == 66 && wire[..length] == Wire(Pack(p))
    ensures forall j :: cap <= j < wire.Length ==> wire[j] == old(wire[j])
  {
    if cap < WIRE_MAX {
      return 0, CorruptFrame;
    }
    var raw := PackRaw(p);
    length := Stuff(raw, wire);
    status := GossipOk;
  }

  // ---------- decode ----------

  class PacketSlot {
    var packet: Packet

    constructor (p: Packet)
      ensures packet == p
    {
      packet := p;
    }
  }

  function StageStatus(s: Stage): Status {
    match s
    case Bytes(_) => GossipOk
    case Leak => ZeroLeakError
    case Corrupt => CorruptFrame
  }

  lemma PrependStageTwice(a: seq<byte>, b: seq<byte>, s: Stage)
    ensures PrependStage(a, PrependStage(b, s)) == PrependStage(a + b, s)
  {
    if s.Bytes? {
      assert a + (b + s.bytes) == a + b + s.bytes;
    }
  }

  // What the stage yields once `done` is out and `rest` is still to come.
  ghost predicate StageProgress(answer: Stage, done: seq<byte>, rest: seq<byte>) {
    |done| <= RAW_SIZE && answer == PrependStage(done, CobsStage(rest, RAW_SIZE - |done|))
  }

  lemma StageStarted(frame: seq<byte>)
    ensures StageProgress(CobsStage(frame, RAW_SIZE), [], frame)
  {
    var s := CobsStage(frame, RAW_SIZE);
    assert s.Bytes? ==> [] + s.bytes == s.bytes;
  }

  lemma StageFinished(answer: Stage, done: seq<byte>)
    requires StageProgress(answer, done, [])
    ensures answer == Bytes(done)
  {
    assert done + [] == done;
  }

  // The status of a nonzero code byte's block, and the progress it makes.
  function BlockStatus(tail: seq<byte>, n: nat, room: nat): Status {
    var reach := Reach(n, |tail|, room);
    if 0 in tail[..reach] then ZeroLeakError
    else if reach < n || room < |Expand(tail, n)| then CorruptFrame
    else GossipOk
  }

  lemma BlockStage(answer: Stage, done: seq<byte>, rest: seq<byte>)
    requires StageProgress(answer, done, rest) && rest != []
    ensures rest[0] == 0 ==> answer == Leak
    ensures rest[0] != 0 ==>
      var n: nat, tail := rest[0] - 1, rest[1..];
      match BlockStatus(tail, n, RAW_SIZE - |done|)
      case GossipOk => StageProgress(answer, done + Expand(tail, n), tail[n..])
      case why => StageStatus(answer) == why
  {
    if rest[0] != 0 {
      var n: nat, tail, room := rest[0] - 1, rest[1..], RAW_SIZE - |done|;
      if BlockStatus(tail, n, room) == GossipOk {
        PrependStageTwice(done, Expand(tail, n), CobsStage(tail[n..], room - |Expand(tail, n)|));
      }
    }
  }

  // The body of the decode loop for a nonzero code byte.
  method UnstuffBlock(wire: array<byte>, srcIdx: nat, target: nat, raw: array<byte>, dstIdx: nat, code: byte)
    returns (status: Status, srcNext: nat, dstNext: nat)
    requires srcIdx <= target <= wire.Length && dstIdx <= RAW_SIZE == raw.Length && raw != wire && code != 0
    modifies raw
    ensures var n: nat, tail := code - 1, wire[srcIdx..target];
      && status == BlockStatus(tail, n, RAW_SIZE - dstIdx)
      && (status == GossipOk ==>
        && srcNext == srcIdx + n && dstNext == dstIdx + |Expand(tail, n)|
        && raw[..dstNext] == old(raw[..dstIdx]) + Expand(tail, n))
  {
    ghost var n: nat, tail, done := code - 1, wire[srcIdx..target], raw[..dstIdx];
    srcNext, dstNext := srcIdx, dstIdx;
    for i := 1 to code
      invariant srcNext == srcIdx + i - 1 <= target && dstNext == dstIdx + i - 1 <= RAW_SIZE
      invariant 0 !in tail[..i - 1]
      invariant raw[..dstNext] == done + tail[..i - 1]
    {
      if srcNext >= target || dstNext >= RAW_SIZE {
        return CorruptFrame, srcNext, dstNext;
      }
      assert wire[srcNext] == tail[i - 1];
      if wire[srcNext] == 0 {
        return ZeroLeakError, srcNext, dstNext;
      }
      assert tail[..i] == tail[..i - 1] + [tail[i - 1]];
      raw[dstNext] := wire[srcNext];
      srcNext, dstNext := srcNext + 1, dstNext + 1;
    }
    if code < 0xFF && srcNext < target {
      if dstNext >= RAW_SIZE {
        return CorruptFrame, srcNext, dstNext;
      }
      raw[dstNext] := 0;
      dstNext := dstNext + 1;
    }
    assert raw[..dstNext] == done + Expand(tail, n);
    status := GossipOk;
  }

  // The decode loop computes the COBS stage.
  method Unstuff(wire: array<byte>, target: nat, raw: array<byte>) returns (length: nat, status: Status)
    requires target <= wire.Length && raw.Length == RAW_SIZE && raw != wire
    modifies raw
    ensures var s := CobsStage(wire[..target], RAW_SIZE);
      status == StageStatus(s) && (s.Bytes? ==> length == |s.bytes| <= RAW_SIZE && raw[..length] == s.bytes)
  {
    ghost var rest, answer := wire[..target], CobsStage(wire[..target], RAW_SIZE);
    StageStarted(rest);
    var srcIdx: nat, dstIdx: nat := 0, 0;
    length := 0;
    while srcIdx < target
      invariant srcIdx <= target && dstIdx <= RAW_SIZE
      invariant rest == wire[srcIdx..target] && StageProgress(answer, raw[..dstIdx], rest)
    {
      BlockStage(answer, raw[..dstIdx], rest);
      var code := wire[srcIdx];
      srcIdx := srcIdx + 1;
      if code == 0 {
        return length, ZeroLeakError;
      }
      assert wire[srcIdx..target] == rest[1..];
      var copied, srcNext, dstNext := UnstuffBlock(wire, srcIdx, target, raw, dstIdx, code);
      if copied != GossipOk {
        return length, copied;
      }
      rest := rest[1..][code - 1..];
      srcIdx, dstIdx := srcNext, dstNext;
    }
    StageFinished(answer, raw[..dstIdx]);
    length, status := dstIdx, GossipOk;
  }

  // The answer is the frame's, and any refusal leaves the output packet alone.
  method DecodeAndVerify(wire: array<byte>, wireLen: nat, local: u64, out: PacketSlot) returns (status: Status)
    requires wireLen <= wire.Length
    modifies out
    ensures match DecodeFrame(wire[..wireLen], local)
      case Accepted(p) => status == GossipOk && out.packet == p
      case Refused(why) => status == why && out.packet == old(out.packet)
  {
    if wireLen < 2 || wireLen > WIRE_MAX || wire[wireLen - 1] != 0 {
      return CorruptFrame;
    }
    var raw := new byte[RAW_SIZE](_ => 0);
    ghost var frame := wire[..wireLen];
    assert frame[..wireLen - 1] == wire[..wireLen - 1];
    var length, staged := Unstuff(wire, wireLen - 1, raw);
    assert wire[..wireLen] == frame;
    ghost var stage := CobsStage(frame[..wireLen - 1], RAW_SIZE);
    assert staged == StageStatus(stage) && DecodeFrame(wire[..wireLen], local) == Settle(stage, local);
    if staged != GossipOk {
      return staged;
    }
    if length != RAW_SIZE {
      return CorruptFrame;
    }
    assert raw[..length] == raw[..];
    var candidate := UnpackRaw(raw);
    if candidate.stepAccumulator != local {
      return SyncMismatch;
    }
    out.packet := candidate;
    return GossipOk;
  }
}
