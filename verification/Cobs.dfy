// Consistent Overhead Byte Stuffing (Cheshire and Baker, "Consistent Overhead Byte
// Stuffing", IEEE/ACM Transactions on Networking 7(2), 1999) and the bounded
// decoder of examples/esp32/esp32_omi_core.c.
module Cobs {

  type byte = x: int | 0 <= x < 256

  datatype Decoded = Plain(bytes: seq<byte>) | Truncated | ZeroLeak

  // ---------- the decoder, block by block ----------

  // A block is a code byte c followed by c-1 copied bytes; it stands for those
  // bytes, and for a zero after them unless c is 0xFF or the block is the last.
  function Decode(src: seq<byte>, room: nat): Decoded
    decreases |src|
  {
    if src == [] then Plain([])
    else if src[0] == 0 then ZeroLeak
    else if |src| < src[0] then Truncated
    else
      var n: nat, tail := src[0] - 1, src[1..];
      var block := Expand(tail, n);
      if room < |block| then Truncated else Prepend(block, Decode(tail[n..], room - |block|))
  }

  // What a block of n bytes stands for, at the head of `tail`.
  function Expand(tail: seq<byte>, n: nat): (block: seq<byte>)
    requires n <= |tail|
    ensures |block| == n + if n < 254 && |tail| > n then 1 else 0
  {
    tail[..n] + if n < 254 && |tail| > n then [0] else []
  }

  function Prepend(block: seq<byte>, d: Decoded): Decoded {
    if d.Plain? then Plain(block + d.bytes) else d
  }

  // ---------- the encoder ----------

  // Encoding d behind the nonzero bytes of a block that is still open.  A zero ends
  // the block, and so do 254 bytes; then the code byte is known.  The two conventions
  // differ in one case only: after a final full block, `closing` still appends the
  // empty block 1.
  function EncodeFrom(open: seq<byte>, d: seq<byte>, closing: bool): (e: seq<byte>)
    requires |open| < 254
    ensures |e| > 0
    decreases |d|
  {
    if d == [] then [|open| + 1] + open
    else if d[0] == 0 then [|open| + 1] + open + EncodeFrom([], d[1..], closing)
    else if |open| < 253 then EncodeFrom(open + [d[0]], d[1..], closing)
    else if d[1..] == [] && !closing then [255] + (open + [d[0]])
    else [255] + (open + [d[0]]) + EncodeFrom([], d[1..], closing)
  }

  function Encode(d: seq<byte>, closing: bool): seq<byte> {
    EncodeFrom([], d, closing)
  }

  ghost predicate ZeroFree(src: seq<byte>) {
    forall i :: 0 <= i < |src| ==> src[i] != 0
  }

  lemma ZeroFreeJoin(code: byte, block: seq<byte>, rest: seq<byte>)
    requires code != 0 && ZeroFree(block) && ZeroFree(rest)
    ensures ZeroFree([code] + block + rest)
  {
  }

  lemma {:induction false} EncodeZeroFree(open: seq<byte>, d: seq<byte>, closing: bool)
    requires |open| < 254 && ZeroFree(open)
    ensures ZeroFree(EncodeFrom(open, d, closing))
    decreases |d|
  {
    if d != [] && d[0] == 0 {
      EncodeZeroFree([], d[1..], closing);
      ZeroFreeJoin(|open| + 1, open, EncodeFrom([], d[1..], closing));
    } else if d != [] && |open| < 253 {
      EncodeZeroFree(open + [d[0]], d[1..], closing);
    } else if d != [] && (d[1..] != [] || closing) {
      EncodeZeroFree([], d[1..], closing);
      ZeroFreeJoin(255, open + [d[0]], EncodeFrom([], d[1..], closing));
    }
  }

  // ---------- round trip ----------

  // One step of the decoder on a frame that starts with a complete block.
  lemma DecodeBlock(block: seq<byte>, rest: seq<byte>, room: nat)
    requires |block| <= 254
    ensures Decode([|block| + 1] + block + rest, room) ==
      var b := block + if |block| < 254 && rest != [] then [0] else [];
      if room < |b| then Truncated else Prepend(b, Decode(rest, room - |b|))
  {
    var src := [|block| + 1] + block + rest;
    assert src[1..] == block + rest;
    assert src[1..][..|block|] == block && src[1..][|block|..] == rest;
  }

  ghost predicate DecodesTo(src: seq<byte>, d: seq<byte>, room: nat) {
    Decode(src, room) == if |d| <= room then Plain(d) else Truncated
  }

  lemma DecodePieces(src: seq<byte>, whole: seq<byte>, block: seq<byte>, tail: seq<byte>, rest: seq<byte>, room: nat)
    requires |block| <= 254 && tail != []
    requires src == [|block| + 1] + block + tail
    requires whole == if |block| < 254 then block + [0] + rest else block + rest
    requires var used := if |block| < 254 then |block| + 1 else 254;
      room >= used ==> DecodesTo(tail, rest, room - used)
    ensures DecodesTo(src, whole, room)
  {
    DecodeBlock(block, tail, room);
    var b := block + if |block| < 254 then [0] else [];
    PrependDecoded(src, whole, b, tail, rest, room);
  }

  lemma PrependDecoded(src: seq<byte>, whole: seq<byte>, b: seq<byte>, tail: seq<byte>, rest: seq<byte>, room: nat)
    requires Decode(src, room) == if room < |b| then Truncated else Prepend(b, Decode(tail, room - |b|))
    requires whole == b + rest && (room >= |b| ==> DecodesTo(tail, rest, room - |b|))
    ensures DecodesTo(src, whole, room)
  {
  }

  lemma DecodeLast(src: seq<byte>, block: seq<byte>, room: nat)
    requires |block| <= 254 && src == [|block| + 1] + block
    ensures DecodesTo(src, block, room)
  {
    DecodeBlock(block, [], room);
    assert src + [] == src && block + [] == block;
  }

  lemma {:induction false} DecodeEncodeFrom(open: seq<byte>, d: seq<byte>, closing: bool, room: nat)
    requires |open| < 254
    ensures DecodesTo(EncodeFrom(open, d, closing), open + d, room)
    decreases |d|
  {
    var e, whole := EncodeFrom(open, d, closing), open + d;
    if d == [] {
      assert whole == open;
      DecodeLast(e, whole, room);
    } else {
      var rest := d[1..];
      var block := open + [d[0]];
      assert whole == block + rest;
      if d[0] == 0 {
        if room > |open| {
          DecodeEncodeFrom([], rest, closing, room - |open| - 1);
        }
        assert [] + rest == rest;
        DecodePieces(e, whole, open, EncodeFrom([], rest, closing), rest, room);
      } else if |open| < 253 {
        DecodeEncodeFrom(block, rest, closing, room);
      } else if rest == [] && !closing {
        assert whole == block;
        DecodeLast(e, whole, room);
      } else {
        if room >= 254 {
          DecodeEncodeFrom([], rest, closing, room - 254);
        }
        assert [] + rest == rest;
        DecodePieces(e, whole, block, EncodeFrom([], rest, closing), rest, room);
      }
    }
  }

  // Decoding an encoding gives the bytes back when they fit, and reports
  // truncation when they do not.
  lemma DecodeEncode(d: seq<byte>, closing: bool, room: nat)
    ensures DecodesTo(Encode(d, closing), d, room)
  {
    DecodeEncodeFrom([], d, closing, room);
    assert [] + d == d;
  }

  // ---------- which frames decode ----------

  // Number of 0xFF blocks that are not the last block.
  function FullBlocks(src: seq<byte>): nat
    decreases |src|
  {
    if src == [] || src[0] == 0 || |src| < src[0] then 0
    else (if src[0] == 255 && src[255..] != [] then 1 else 0) + FullBlocks(src[src[0]..])
  }

  // A successful decode loses one byte to the first code byte and one more to every
  // full block that is not the last.
  lemma {:induction false} LengthAccounting(src: seq<byte>, room: nat)
    requires src != [] && Decode(src, room).Plain?
    ensures |Decode(src, room).bytes| + 1 + FullBlocks(src) == |src|
    decreases |src|
  {
    var n := src[0] - 1;
    var rest := src[1 + n..];
    if rest != [] {
      LengthAccounting(rest, if n < 254 then room - n - 1 else room - n);
    }
  }

  // Nonzero bytes join the open block.
  lemma {:induction false} EncodeRun(open: seq<byte>, run: seq<byte>, more: seq<byte>, closing: bool)
    requires |open| + |run| < 254 && ZeroFree(run)
    ensures EncodeFrom(open, run + more, closing) == EncodeFrom(open + run, more, closing)
    decreases |run|
  {
    if run == [] {
      assert run + more == more && open + run == open;
    } else {
      EncodeRun(open + [run[0]], run[1..], more, closing);
      assert (run + more)[1..] == run[1..] + more;
      assert open + [run[0]] + run[1..] == open + run;
    }
  }

  lemma EncodeLast(block: seq<byte>)
    requires |block| <= 254 && ZeroFree(block)
    ensures Encode(block, false) == [|block| + 1] + block
  {
    if |block| < 254 {
      EncodeRun([], block, [], false);
      assert block + [] == block && [] + block == block;
    } else {
      EncodeRun([], block[..253], block[253..], false);
      assert block == block[..253] + block[253..] == block[..253] + [block[253]];
      assert [] + block[..253] == block[..253];
    }
  }

  lemma EncodeShort(d: seq<byte>, block: seq<byte>, more: seq<byte>, closing: bool)
    requires |block| < 254 && ZeroFree(block) && d == block + [0] + more
    ensures Encode(d, closing) == [|block| + 1] + block + Encode(more, closing)
  {
    EncodeRun([], block, [0] + more, closing);
    assert d == block + ([0] + more) && [] + block == block;
    assert ([0] + more)[1..] == more;
  }

  lemma EncodeFull(d: seq<byte>, block: seq<byte>, more: seq<byte>, closing: bool)
    requires |block| == 254 && ZeroFree(block) && d == block + more && (more != [] || closing)
    ensures Encode(d, closing) == [255] + block + Encode(more, closing)
  {
    var run, tail := block[..253], [block[253]] + more;
    EncodeRun([], run, tail, closing);
    assert block == run + [block[253]];
    assert d == run + tail && [] + run == run && tail[1..] == more;
  }

  lemma ZeroFreeParts(src: seq<byte>, n: nat)
    requires n < |src|
    ensures ZeroFree(src) <==> src[0] != 0 && 0 !in src[1..][..n] && ZeroFree(src[1..][n..])
    ensures src == [src[0]] + src[1..][..n] + src[1..][n..]
  {
  }

  lemma AddBlock(src: seq<byte>, block: seq<byte>, rest: seq<byte>, d: seq<byte>, more: seq<byte>, closing: bool)
    returns (closing': bool)
    requires |block| <= 254 && ZeroFree(block) && src == [|block| + 1] + block + rest
    requires d == block + (if |block| < 254 then [0] else []) + more && rest == Encode(more, closing)
    ensures src == Encode(d, closing')
  {
    closing' := closing;
    if |block| < 254 {
      EncodeShort(d, block, more, closing');
    } else {
      assert block + [] == block;
      if more == [] {
        closing' := true;
      }
      EncodeFull(d, block, more, closing');
    }
  }

  // A zero-free frame that decodes is an encoding of what it decodes to, under one
  // of the two conventions.
  lemma {:induction false} ZeroFreeIsEncoding(src: seq<byte>, room: nat) returns (closing: bool)
    requires src != [] && ZeroFree(src) && Decode(src, room).Plain?
    ensures src == Encode(Decode(src, room).bytes, closing)
    decreases |src|
  {
    var n: nat, tail, d := src[0] - 1, src[1..], Decode(src, room).bytes;
    var block, rest, left := tail[..n], tail[n..], room - |Expand(tail, n)|;
    ZeroFreeParts(src, n);
    if rest == [] {
      closing := false;
      EncodeLast(block);
      assert d == block && src == [n + 1] + block;
    } else {
      var more := Decode(rest, left).bytes;
      closing := ZeroFreeIsEncoding(rest, left);
      closing := AddBlock(src, block, rest, d, more, closing);
    }
  }

  // Hence, on nonempty zero-free frames, decoding is exactly the inverse of encoding.
  lemma DecodesIffEncoding(src: seq<byte>, d: seq<byte>, room: nat)
    requires src != [] && ZeroFree(src)
    ensures Decode(src, room) == Plain(d) <==> |d| <= room && (src == Encode(d, true) || src == Encode(d, false))
  {
    if Decode(src, room) == Plain(d) {
      var closing := ZeroFreeIsEncoding(src, room);
      DecodeEncode(d, closing, room);
    }
    DecodeEncode(d, true, room);
    DecodeEncode(d, false, room);
  }

  // A frame that decodes is an encoding exactly when it contains no zero.
  lemma EncodingIffZeroFree(src: seq<byte>, room: nat)
    requires src != [] && Decode(src, room).Plain?
    ensures var d := Decode(src, room).bytes;
      ZeroFree(src) <==> src == Encode(d, true) || src == Encode(d, false)
  {
    var d := Decode(src, room).bytes;
    if ZeroFree(src) {
      DecodesIffEncoding(src, d, room);
    }
    EncodeZeroFree([], d, true);
    EncodeZeroFree([], d, false);
  }

  // The decoder also accepts zeros among the bytes it copies: a single block decodes to
  // its data bytes, whatever they are.
  lemma CopiedZerosAreAccepted(block: seq<byte>, room: nat)
    requires |block| <= 254 && |block| <= room
    ensures Decode([|block| + 1] + block, room) == Plain(block)
  {
    DecodeLast([|block| + 1] + block, block, room);
  }

  // ---------- the decoder as written ----------

  datatype EalStatus = EalOk | EalFrameTruncated | EalZeroLeak

  function StatusOf(d: Decoded): EalStatus {
    match d
    case Plain(_) => EalOk
    case Truncated => EalFrameTruncated
    case ZeroLeak => EalZeroLeak
  }

  lemma PrependTwice(a: seq<byte>, b: seq<byte>, d: Decoded)
    ensures Prepend(a, Prepend(b, d)) == Prepend(a + b, d)
  {
    if d.Plain? {
      assert a + (b + d.bytes) == a + b + d.bytes;
    }
  }

  // What is decoded once `done` is out and `rest` is still to come.
  ghost predicate Progress(answer: Decoded, cap: nat, done: seq<byte>, rest: seq<byte>) {
    |done| <= cap && answer == Prepend(done, Decode(rest, cap - |done|))
  }

  lemma Started(frame: seq<byte>, cap: nat)
    ensures Progress(Decode(frame, cap), cap, [], frame)
  {
    var d := Decode(frame, cap);
    assert d.Plain? ==> [] + d.bytes == d.bytes;
  }

  lemma Finished(answer: Decoded, cap: nat, done: seq<byte>)
    requires Progress(answer, cap, done, [])
    ensures answer == Plain(done)
  {
    assert done + [] == done;
  }

  // One block: refused where the loop refuses it, otherwise one step of progress.
  lemma BlockProgress(answer: Decoded, cap: nat, done: seq<byte>, rest: seq<byte>)
    requires Progress(answer, cap, done, rest) && rest != []
    ensures rest[0] == 0 ==> answer == ZeroLeak
    ensures rest[0] != 0 ==>
      var n: nat, tail := rest[0] - 1, rest[1..];
      if |tail| < n || cap - |done| < |Expand(tail, n)| then answer == Truncated
      else Progress(answer, cap, done + Expand(tail, n), tail[n..])
  {
    if 0 < rest[0] <= |rest| {
      var n: nat, tail := rest[0] - 1, rest[1..];
      var block := Expand(tail, n);
      if |block| <= cap - |done| {
        PrependTwice(done, block, Decode(tail[n..], cap - |done| - |block|));
      }
    }
  }

  // The inner copy.  Source and destination may be the same array as long as the
  // write index is behind the read index.
  method CopyBytes(src: array<byte>, srcIdx: nat, srcLen: nat, dst: array<byte>, dstIdx: nat, dstCap: nat, count: nat)
    returns (ok: bool)
    requires dstIdx < srcIdx <= srcLen <= src.Length && dstIdx <= dstCap <= dst.Length
    modifies dst
    ensures var tail := old(src[srcIdx..srcLen]);
      && (ok <==> count <= |tail| && count <= dstCap - dstIdx)
      && (ok ==>
        && dst[..dstIdx + count] == old(dst[..dstIdx]) + tail[..count]
        && src[srcIdx + count..srcLen] == tail[count..])
    ensures forall j :: dstCap <= j < dst.Length ==> dst[j] == old(dst[j])
  {
    ghost var tail := src[srcIdx..srcLen];
    for i := 0 to count
      invariant srcIdx + i <= srcLen && dstIdx + i <= dstCap
      invariant dst[..dstIdx + i] == old(dst[..dstIdx]) + tail[..i]
      invariant src[srcIdx + i..srcLen] == tail[i..]
      invariant forall j :: dstCap <= j < dst.Length ==> dst[j] == old(dst[j])
    {
      if srcIdx + i >= srcLen || dstIdx + i >= dstCap {
        return false;
      }
      assert src[srcIdx + i] == src[srcIdx + i..srcLen][0] == tail[i];
      dst[dstIdx + i] := src[srcIdx + i];
      assert tail[..i + 1] == tail[..i] + [tail[i]];
    }
    return true;
  }

  // The rest of the loop body for a nonzero code byte.
  method ExpandBlock(src: array<byte>, srcIdx: nat, srcLen: nat, dst: array<byte>, dstIdx: nat, dstCap: nat, code: byte)
    returns (ok: bool, srcNext: nat, dstNext: nat)
    requires code != 0
    requires dstIdx < srcIdx <= srcLen <= src.Length && dstIdx <= dstCap <= dst.Length
    modifies dst
    ensures var n: nat, tail := code - 1, old(src[srcIdx..srcLen]);
      && (ok <==> n <= |tail| && |Expand(tail, n)| <= dstCap - dstIdx)
      && (ok ==>
        && srcNext == srcIdx + n && dstNext == dstIdx + |Expand(tail, n)|
        && dst[..dstNext] == old(dst[..dstIdx]) + Expand(tail, n)
        && src[srcNext..srcLen] == tail[n..])
    ensures forall j :: dstCap <= j < dst.Length ==> dst[j] == old(dst[j])
  {
    ghost var n: nat, tail, done := code - 1, src[srcIdx..srcLen], dst[..dstIdx];
    srcNext, dstNext := srcIdx, dstIdx;
    ok := CopyBytes(src, srcIdx, srcLen, dst, dstIdx, dstCap, code - 1);
    if !ok {
      return;
    }
    srcNext, dstNext := srcIdx + code - 1, dstIdx + code - 1;
    if code < 0xFF && srcNext < srcLen {
      if dstNext >= dstCap {
        return false, srcNext, dstNext;
      }
      dst[dstNext] := 0;
      dstNext := dstNext + 1;
      assert dst[..dstNext] == done + tail[..n] + [0] == done + Expand(tail, n);
    }
  }

  // On encodings there are two answers only: the bytes, or truncation when they do not
  // fit.
  method DecodeEncoding(src: array<byte>, srcLen: nat, dst: array<byte>, dstCap: nat, ghost x: seq<byte>, ghost c: bool)
    returns (length: nat, status: EalStatus)
    requires srcLen <= src.Length && dstCap <= dst.Length && src[..srcLen] == Encode(x, c)
    modifies dst
    ensures |x| > dstCap ==> status == EalFrameTruncated && length == 0
    ensures |x| <= dstCap ==> status == EalOk && length == |x| && dst[..length] == x
  {
    DecodeEncode(x, c, dstCap);
    length, status := DecodeBounded(src, srcLen, dst, dstCap);
  }

  // The index-juggling loop computes Decode, also when it decodes in place.
  method DecodeBounded(src: array<byte>, srcLen: nat, dst: array<byte>, dstCap: nat)
    returns (length: nat, status: EalStatus)
    requires srcLen <= src.Length && dstCap <= dst.Length
    modifies dst
    ensures var d := Decode(old(src[..srcLen]), dstCap);
      && status == StatusOf(d)
      && (if d.Plain? then length == |d.bytes| <= dstCap && dst[..length] == d.bytes else length == 0)
    ensures var d := Decode(old(src[..srcLen]), dstCap);
      && (status == EalZeroLeak <==> d == ZeroLeak) && (status == EalFrameTruncated <==> d == Truncated)
      && (status == EalOk <==> d.Plain?)
    ensures srcLen > 0 && old(src[0]) == 0 ==> status == EalZeroLeak
    ensures srcLen > 0 && old(src[0]) > srcLen ==> status == EalFrameTruncated
    ensures forall j :: dstCap <= j < dst.Length ==> dst[j] == old(dst[j])
  {
    ghost var rest, answer := src[..srcLen], Decode(src[..srcLen], dstCap);
    Started(rest, dstCap);
    var srcIdx: nat, dstIdx: nat := 0, 0;
    while srcIdx < srcLen
      invariant dstIdx <= srcIdx <= srcLen && dstIdx <= dstCap
      invariant rest == src[srcIdx..srcLen] && Progress(answer, dstCap, dst[..dstIdx], rest)
      invariant forall j :: dstCap <= j < dst.Length ==> dst[j] == old(dst[j])
    {
      BlockProgress(answer, dstCap, dst[..dstIdx], rest);
      var code := src[srcIdx];
      srcIdx := srcIdx + 1;
      if code == 0 {
        return 0, EalZeroLeak;
      }
      assert src[srcIdx..srcLen] == rest[1..];
      var ok, srcNext, dstNext := ExpandBlock(src, srcIdx, srcLen, dst, dstIdx, dstCap, code);
      if !ok {
        return 0, EalFrameTruncated;
      }
      rest := rest[1..][code - 1..];
      srcIdx, dstIdx := srcNext, dstNext;
    }
    Finished(answer, dstCap, dst[..dstIdx]);
    length, status := dstIdx, EalOk;
  }
}
