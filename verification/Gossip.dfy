// The P2P gossip frame of examples/esp32/esp32_p2p_gossip.c: a packet, its fixed
// 64-byte raw layout, and the COBS frame that carries it.
module Gossip {
  import opened WordTypes
  import opened Powers
  import opened Cobs
  import opened LittleEndian

  const RAW_SIZE: nat := 64
  const WIRE_MAX: nat := 66

  type Board32 = s: seq<byte> | |s| == 32 witness seq(32, _ => 0)
  type Digest16 = s: seq<byte> | |s| == 16 witness seq(16, _ => 0)
  type Raw = s: seq<byte> | |s| == 64 witness seq(64, _ => 0)

  datatype Packet = Packet(sourceNodeId: u32, stepAccumulator: u64, omnionPhase: byte, board: Board32, digest: Digest16)

  datatype Status = GossipOk | CorruptFrame | ZeroLeakError | SyncMismatch

  // ---------- raw layout ----------

  function Pack(p: Packet): Raw {
    ToBytes(p.sourceNodeId, 4) + ToBytes(p.stepAccumulator, 8) + [p.omnionPhase, 0, 0, 0] + p.board + p.digest
  }

  function Unpack(raw: Raw): Packet {
    FieldsFit(raw);
    Packet(FromBytes(raw[0..4]), FromBytes(raw[4..12]), raw[12], raw[16..48], raw[48..64])
  }

  lemma FieldsFit(raw: Raw)
    ensures FromBytes(raw[0..4]) < 0x1_0000_0000
    ensures FromBytes(raw[4..12]) < 0x1_0000_0000_0000_0000
  {
    WordSizes();
    FromBytesBelow(raw[0..4]);
    FromBytesBelow(raw[4..12]);
  }

  lemma Layout(a: seq<byte>, b: seq<byte>, c: seq<byte>, d: seq<byte>, e: seq<byte>)
    requires |a| == 4 && |b| == 8 && |c| == 4 && |d| == 32 && |e| == 16
    ensures var raw := a + b + c + d + e;
      raw[0..4] == a && raw[4..12] == b && raw[12..16] == c && raw[16..48] == d && raw[48..64] == e
  {
  }

  lemma UnpackPack(p: Packet)
    ensures Unpack(Pack(p)) == p
  {
    WordSizes();
    FromToBytes(p.sourceNodeId, 4);
    FromToBytes(p.stepAccumulator, 8);
    Layout(ToBytes(p.sourceNodeId, 4), ToBytes(p.stepAccumulator, 8), [p.omnionPhase, 0, 0, 0], p.board, p.digest);
    assert Pack(p)[12] == Pack(p)[12..16][0];
  }

  // The layout, byte by byte: both counters lowest byte first, the phase at 12, three
  // zeros, the board at 16 and the digest at 48.
  lemma PackLayout(p: Packet)
    ensures var raw := Pack(p);
      && p.sourceNodeId == Word32(raw[0], raw[1], raw[2], raw[3])
      && p.stepAccumulator ==
           Word32(raw[4], raw[5], raw[6], raw[7]) + 0x1_0000_0000 * Word32(raw[8], raw[9], raw[10], raw[11])
      && raw[12] == p.omnionPhase && raw[13] == raw[14] == raw[15] == 0
      && raw[16..48] == p.board && raw[48..64] == p.digest
  {
    var raw := Pack(p);
    UnpackPack(p);
    PackUnpackIff(raw);
    UnpackLayout(raw);
  }

  lemma UnpackLayout(raw: Raw)
    ensures var p := Unpack(raw);
      && p.sourceNodeId == Word32(raw[0], raw[1], raw[2], raw[3])
      && p.stepAccumulator ==
           Word32(raw[4], raw[5], raw[6], raw[7]) + 0x1_0000_0000 * Word32(raw[8], raw[9], raw[10], raw[11])
      && p.omnionPhase == raw[12] && p.board == raw[16..48] && p.digest == raw[48..64]
  {
    FourBytes(raw[0..4]);
    EightBytes(raw[4..12]);
  }

  function Word32(b0: byte, b1: byte, b2: byte, b3: byte): nat {
    b0 + 0x100 * b1 + 0x1_0000 * b2 + 0x100_0000 * b3
  }

  lemma FourBytes(s: seq<byte>)
    requires |s| == 4
    ensures FromBytes(s) == Word32(s[0], s[1], s[2], s[3])
  {
    var t := s[1..];
    var u := t[1..];
    var v := u[1..];
    assert t[0] == s[1] && u[0] == s[2] && v[0] == s[3] && v[1..] == [];
    assert FromBytes(v) == v[0] as int + 256 * FromBytes(v[1..]);
    assert FromBytes(u) == u[0] as int + 256 * FromBytes(v);
    assert FromBytes(t) == t[0] as int + 256 * FromBytes(u);
  }

  lemma EightBytes(s: seq<byte>)
    requires |s| == 8
    ensures FromBytes(s) == Word32(s[0], s[1], s[2], s[3]) + 0x1_0000_0000 * Word32(s[4], s[5], s[6], s[7])
  {
    var low, high := s[..4], s[4..];
    FourBytes(low);
    FourBytes(high);
    FromBytesConcat(low, high);
    assert s == low + high;
    WordSizes();
  }

  // Three layout bytes carry nothing: unpacking forgets them, packing clears them.
  lemma PackUnpackIff(raw: Raw)
    ensures Pack(Unpack(raw)) == raw <==> raw[13] == 0 && raw[14] == 0 && raw[15] == 0
  {
    ToFromBytes(raw[0..4]);
    ToFromBytes(raw[4..12]);
    var p := Pack(Unpack(raw));
    assert p == raw[0..4] + raw[4..12] + [raw[12], 0, 0, 0] + raw[16..48] + raw[48..64];
    assert p[13] == 0 && p[14] == 0 && p[15] == 0;
    assert raw == raw[0..4] + raw[4..12] + [raw[12], raw[13], raw[14], raw[15]] + raw[16..48] + raw[48..64];
  }

  // Exactly when two raw images unpack to one packet: when they agree outside those
  // three bytes.
  lemma SamePacketIff(raw: Raw, raw': Raw)
    ensures Unpack(raw) == Unpack(raw') <==> raw[..13] == raw'[..13] && raw[16..] == raw'[16..]
  {
    Fields(raw);
    Fields(raw');
    if raw[..13] == raw'[..13] && raw[16..] == raw'[16..] {
      SamePieces(raw, raw');
    }
  }

  // The fields of the packet are the image without bytes 13 to 15.
  lemma Fields(raw: Raw)
    ensures var p := Unpack(raw);
      && raw[..13] == ToBytes(p.sourceNodeId, 4) + ToBytes(p.stepAccumulator, 8) + [p.omnionPhase]
      && raw[16..] == p.board + p.digest
  {
    ToFromBytes(raw[0..4]);
    ToFromBytes(raw[4..12]);
    assert raw[..13] == raw[0..4] + raw[4..12] + [raw[12]];
    assert raw[16..] == raw[16..48] + raw[48..64];
  }

  lemma SamePieces(raw: Raw, raw': Raw)
    requires raw[..13] == raw'[..13] && raw[16..] == raw'[16..]
    ensures raw[0..4] == raw'[0..4] && raw[4..12] == raw'[4..12] && raw[12] == raw'[12]
    ensures raw[16..48] == raw'[16..48] && raw[48..64] == raw'[48..64]
  {
    var a, b, a', b' := raw[..13], raw[16..], raw'[..13], raw'[16..];
    assert raw[0..4] == a[0..4] && raw[4..12] == a[4..12] && raw[12] == a[12];
    assert raw'[0..4] == a'[0..4] && raw'[4..12] == a'[4..12] && raw'[12] == a'[12];
    assert raw[16..48] == b[..32] && raw[48..64] == b[32..];
    assert raw'[16..48] == b'[..32] && raw'[48..64] == b'[32..];
  }

  // ---------- frames ----------

  // A frame on the wire: the encoding of the raw bytes and one delimiter.
  function Wire(raw: Raw): seq<byte> {
    Encode(raw, false) + [0]
  }

  lemma {:induction false} ShortFrom(open: seq<byte>, d: seq<byte>, closing: bool)
    requires |open| + |d| < 254
    ensures |EncodeFrom(open, d, closing)| == |open| + |d| + 1
    ensures EncodeFrom(open, d, closing) == EncodeFrom(open, d, false)
    decreases |d|
  {
    if d != [] {
      ShortFrom(if d[0] == 0 then [] else open + [d[0]], d[1..], closing);
    }
  }

  lemma ShortEncoding(d: seq<byte>, closing: bool)
    requires |d| < 254
    ensures |Encode(d, closing)| == |d| + 1 && Encode(d, closing) == Encode(d, false)
    ensures ZeroFree(Encode(d, closing))
  {
    ShortFrom([], d, closing);
    EncodeZeroFree([], d, closing);
  }

  datatype Stage = Bytes(bytes: seq<byte>) | Leak | Corrupt

  function PrependStage(block: seq<byte>, s: Stage): Stage {
    if s.Bytes? then Bytes(block + s.bytes) else s
  }

  // How many of a block's n data bytes the decoder looks at before it must stop.
  function Reach(n: nat, available: nat, room: nat): nat {
    if n <= available && n <= room then n else if available <= room then available else room
  }

  // The COBS stage of the frame decoder.  Unlike the general decoder it refuses a
  // zero among the copied bytes, if it meets one before it runs out of input or room.
  function CobsStage(src: seq<byte>, room: nat): Stage
    decreases |src|
  {
    if src == [] then Bytes([])
    else if src[0] == 0 then Leak
    else
      var n: nat, tail := src[0] - 1, src[1..];
      var reach := Reach(n, |tail|, room);
      if 0 in tail[..reach] then Leak
      else if reach < n then Corrupt
      else
        var block := Expand(tail, n);
        if room < |block| then Corrupt else PrependStage(block, CobsStage(tail[n..], room - |block|))
  }

  // The stage succeeds on zero-free frames only, and there it is the general decoder;
  // a zero-free frame is never refused for a zero.
  lemma {:induction false} StageIffDecode(src: seq<byte>, room: nat)
    ensures CobsStage(src, room).Bytes? <==> ZeroFree(src) && Decode(src, room).Plain?
    ensures CobsStage(src, room).Bytes? ==> CobsStage(src, room).bytes == Decode(src, room).bytes
    ensures ZeroFree(src) ==> !CobsStage(src, room).Leak? && !Decode(src, room).ZeroLeak?
    decreases |src|
  {
    if src != [] && 0 < src[0] <= |src| {
      var n: nat, tail := src[0] - 1, src[1..];
      ZeroFreeParts(src, n);
      if |Expand(tail, n)| <= room {
        StageIffDecode(tail[n..], room - |Expand(tail, n)|);
      }
    }
  }

  // Whole frames: what the decoder answers, as a function of the wire bytes.
  datatype Answer = Accepted(packet: Packet) | Refused(status: Status)

  function DecodeFrame(wire: seq<byte>, local: u64): Answer {
    if |wire| < 2 || |wire| > WIRE_MAX || wire[|wire| - 1] != 0 then Refused(CorruptFrame)
    else Settle(CobsStage(wire[..|wire| - 1], RAW_SIZE), local)
  }

  // The answer once the COBS stage is through.
  function Settle(s: Stage, local: u64): Answer {
    match s
    case Leak => Refused(ZeroLeakError)
    case Corrupt => Refused(CorruptFrame)
    case Bytes(raw) =>
      if |raw| != RAW_SIZE then Refused(CorruptFrame)
      else if Unpack(raw).stepAccumulator != local then Refused(SyncMismatch)
      else Accepted(Unpack(raw))
  }

  ghost predicate Framed(wire: seq<byte>) {
    2 <= |wire| <= 66 && wire[|wire| - 1] == 0
  }

  // The COBS stage of a whole frame yields exactly these 64 raw bytes.
  ghost predicate Carries(wire: seq<byte>, raw: Raw) {
    Framed(wire) && CobsStage(wire[..|wire| - 1], RAW_SIZE) == Bytes(raw)
  }

  // Frames and raw images correspond one to one: a frame carries raw bytes exactly
  // when it is their encoding, hence 66 bytes long with its only zero last.
  lemma CarriesIff(wire: seq<byte>, raw: Raw)
    ensures Carries(wire, raw) <==> wire == Wire(raw)
    ensures |Wire(raw)| == 66 && Wire(raw)[65] == 0
    ensures forall i :: 0 <= i < 65 ==> Wire(raw)[i] != 0
  {
    ShortEncoding(raw, true);
    ShortEncoding(raw, false);
    if 2 <= |wire| <= WIRE_MAX && wire[|wire| - 1] == 0 {
      var body := wire[..|wire| - 1];
      assert wire == body + [0];
      StageIffDecode(body, RAW_SIZE);
      if ZeroFree(body) {
        DecodesIffEncoding(body, raw, RAW_SIZE);
      }
    }
    if wire == Wire(raw) {
      assert wire[..|wire| - 1] == Encode(raw, false);
    }
  }

  lemma SameRawSameFrame(wire: seq<byte>, wire': seq<byte>, raw: Raw)
    requires Carries(wire, raw) && Carries(wire', raw)
    ensures wire == wire'
  {
    CarriesIff(wire, raw);
    CarriesIff(wire', raw);
  }

  // A frame made from a packet is accepted, and returns the packet, exactly when
  // the receiver's step count is the packet's; otherwise it is a sync mismatch.
  lemma RoundTrip(p: Packet, local: u64)
    ensures DecodeFrame(Wire(Pack(p)), local) ==
      if p.stepAccumulator == local then Accepted(p) else Refused(SyncMismatch)
  {
    CarriesIff(Wire(Pack(p)), Pack(p));
    UnpackPack(p);
  }

  // An accepted frame is the one its packet encodes to exactly when the three
  // unused layout bytes it carries are zero.
  lemma ReencodeIff(wire: seq<byte>, raw: Raw)
    requires Carries(wire, raw)
    ensures DecodeFrame(wire, Unpack(raw).stepAccumulator) == Accepted(Unpack(raw))
    ensures Wire(Pack(Unpack(raw))) == wire <==> raw[13] == 0 && raw[14] == 0 && raw[15] == 0
  {
    PackUnpackIff(raw);
    CarriesIff(wire, raw);
    var again := Pack(Unpack(raw));
    CarriesIff(Wire(again), again);
  }

  // Two different frames that are accepted with one packet: byte 13 is not checked.
  lemma TwoFramesOnePacket(p: Packet)
    ensures exists wire, wire' ::
      wire != wire' && DecodeFrame(wire, p.stepAccumulator) == DecodeFrame(wire', p.stepAccumulator) == Accepted(p)
  {
    var raw := Pack(p);
    var raw': Raw := raw[13 := 1];
    UnpackPack(p);
    PackUnpackIff(raw);
    assert raw[..13] == raw'[..13] && raw[16..] == raw'[16..];
    SamePacketIff(raw, raw');
    CarriesIff(Wire(raw), raw);
    CarriesIff(Wire(raw'), raw');
    CarriesIff(Wire(raw), raw');
    assert DecodeFrame(Wire(raw), p.stepAccumulator) == Accepted(p);
    assert DecodeFrame(Wire(raw'), p.stepAccumulator) == Accepted(p);
  }

  // ---------- what every frame is answered ----------

  // Within the length bound the decoder never runs out of room before it meets a zero.
  lemma {:induction false} CorruptIsZeroFree(src: seq<byte>, room: nat)
    requires |src| <= room + 1 && CobsStage(src, room).Corrupt?
    ensures ZeroFree(src)
    decreases |src|
  {
    var n: nat, tail := src[0] - 1, src[1..];
    if n <= |tail| {
      CorruptIsZeroFree(tail[n..], room - |Expand(tail, n)|);
      ZeroFreeParts(src, n);
    } else {
      ZeroFreeParts(src, |tail|);
    }
  }

  lemma LeakIffZero(src: seq<byte>, room: nat)
    requires |src| <= room + 1
    ensures CobsStage(src, room).Leak? <==> !ZeroFree(src)
  {
    StageIffDecode(src, room);
    if CobsStage(src, room).Corrupt? {
      CorruptIsZeroFree(src, room);
    }
  }

  // Every wire image gets its answer for exactly one reason: a badly framed one is
  // corrupt, a zero inside is a leak, and the rest are the frames of raw images -
  // accepted or out of step - or corrupt.
  lemma AnswerIff(wire: seq<byte>, local: u64)
    ensures DecodeFrame(wire, local) == Refused(ZeroLeakError) <==> Framed(wire) && 0 in wire[..|wire| - 1]
    ensures DecodeFrame(wire, local) == Refused(SyncMismatch) <==>
      exists raw: Raw :: wire == Wire(raw) && Unpack(raw).stepAccumulator != local
    ensures DecodeFrame(wire, local).Accepted? <==>
      exists raw: Raw :: wire == Wire(raw) && Unpack(raw).stepAccumulator == local
    ensures DecodeFrame(wire, local) == Refused(CorruptFrame) <==>
      !(Framed(wire) && 0 in wire[..|wire| - 1]) && forall raw: Raw :: wire != Wire(raw)
  {
    forall raw: Raw ensures Carries(wire, raw) <==> wire == Wire(raw) {
      CarriesIff(wire, raw);
    }
    if Framed(wire) {
      var body := wire[..|wire| - 1];
      LeakIffZero(body, RAW_SIZE);
      if CobsStage(body, RAW_SIZE).Bytes? && |CobsStage(body, RAW_SIZE).bytes| == RAW_SIZE {
        var raw: Raw := CobsStage(body, RAW_SIZE).bytes;
        assert Carries(wire, raw);
      }
    }
  }
}
