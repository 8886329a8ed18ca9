// The binary export comparator of examples/compiler/binary_export_verifier.c: an
// FNV-1a hash (section 2 of draft-eastlake-fnv), a twelve-byte image compiler, and
// a comparison that checks lengths, hashes and bytes in that order.
module Export {
  import opened WordTypes
  import opened Powers
  import opened Words
  import opened Cobs

  const OFFSET_BASIS: nat := 2166136261
  const PRIME: nat := 16777619
  const BUFFER_MAX: nat := 64

  type Buffer = s: seq<byte> | |s| == 64 witness seq(64, _ => 0)

  // ---------- FNV-1a ----------

  // One step: xor the byte into the low bits, then multiply modulo 2^32.
  function HashStep(h: u32, b: byte): u32 {
    Xor(h, b) * PRIME % TWO32
  }

  function HashFrom(h: u32, data: seq<byte>): u32 {
    if data == [] then h else HashStep(HashFrom(h, data[..|data| - 1]), data[|data| - 1])
  }

  function Fnv1a(data: seq<byte>): u32 {
    HashFrom(OFFSET_BASIS, data)
  }

  // The two equations of FNV-1a.
  lemma HashEquations(s: seq<byte>, b: byte)
    ensures Fnv1a([]) == 0x811C9DC5
    ensures Fnv1a(s + [b]) == Xor(Fnv1a(s), b) * 16777619 % 0x1_0000_0000
  {
    assert (s + [b])[..|s|] == s;
  }

  // The published hash of the letter a.
  lemma HashOfLetterA(s: seq<byte>)
    requires |s| == 1 && s[0] == 0x61
    ensures Fnv1a(s) == 0xE40C292C
  {
    var before := s[..0];
    HashEquations(before, s[0]);
    assert s == before + [s[0]] && before == [];
    LetterStep(Fnv1a(before), s[0], Fnv1a(s));
  }

  lemma LetterStep(h: nat, b: nat, hash: nat)
    requires h == 0x811C9DC5 && b == 0x61 && hash == Xor(h, b) * 16777619 % 0x1_0000_0000
    ensures hash == 0xE40C292C
  {
    FirstMix(h, 0xC5, b);
    LetterProduct(Xor(h, b));
  }

  lemma LetterProduct(mixed: nat)
    requires mixed == 0x811C9DA4
    ensures mixed * 16777619 % 0x1_0000_0000 == 0xE40C292C
  {
  }

  lemma FirstMix(h: nat, lo: nat, b: nat)
    requires h == 0x811C9DC5 && lo == 0xC5 && b == 0x61
    ensures Xor(h, b) == 0x811C9DA4
  {
    assert Pow2(8) == 256;
    assert ShiftedUp(0x811C9D, 8) == 0x811C9D00;
    XorLow(lo, 0x811C9D, 8, b);
    assert Xor(0xC5, 0x61) == 0xA4;
  }

  method ComputeFnv1a(data: array<byte>, length: nat) returns (hash: u32)
    requires length <= data.Length
    ensures hash == Fnv1a(data[..length])
  {
    hash := OFFSET_BASIS;
    for i := 0 to length
      invariant hash == Fnv1a(data[..i])
    {
      assert data[..i + 1][..i] == data[..i];
      var mixed := Xor(hash, data[i]);
      assert mixed * PRIME % TWO32 == HashStep(hash, data[i]);
      hash := mixed * PRIME % TWO32;
    }
  }

  // The prime has an inverse modulo 2^32, so each step can be undone.
  const PRIME_INVERSE: nat := 0x359C449B

  lemma ModTwice(q: nat, r: nat, k: nat)
    ensures (q * TWO32 + r) * k % TWO32 == r * k % TWO32
  {
    assert (q * TWO32 + r) * k == q * k * TWO32 + r * k;
    Drop(q * k, r * k);
  }

  lemma Drop(q: nat, r: nat)
    ensures (q * TWO32 + r) % TWO32 == r % TWO32
  {
  }

  lemma MultiplyInvertible(x: u32)
    ensures x * 16777619 % 0x1_0000_0000 * 0x359C449B % 0x1_0000_0000 == x
  {
    var y := x * PRIME;
    assert y == y / TWO32 * TWO32 + y % TWO32;
    ModTwice(y / TWO32, y % TWO32, PRIME_INVERSE);
    assert y * PRIME_INVERSE == x * 3513497 * TWO32 + x;
    Drop(x * 3513497, x);
  }

  lemma StepInjective(h: u32, b: byte, h': u32, b': byte)
    requires HashStep(h, b) == HashStep(h', b')
    ensures Xor(h, b) == Xor(h', b')
  {
    WordSizes();
    XorBelow(h, b, 32);
    XorBelow(h', b', 32);
    MultiplyInvertible(Xor(h, b));
    MultiplyInvertible(Xor(h', b'));
  }

  // Every step can be run backwards: undo the multiplication, then the xor.
  function UnhashStep(h: u32, b: byte): u32 {
    WordSizes();
    XorBelow(h * PRIME_INVERSE % TWO32, b, 32);
    Xor(h * PRIME_INVERSE % TWO32, b)
  }

  lemma StepUndone(h: u32, b: byte)
    ensures UnhashStep(HashStep(h, b), b) == h
  {
    WordSizes();
    XorBelow(h, b, 32);
    MultiplyInvertible(Xor(h, b));
    XorTwice(h, b);
  }

  // The hash state before some bytes, from the state after them.
  function Unhash(h: u32, data: seq<byte>): u32
    decreases data
  {
    if data == [] then h else Unhash(UnhashStep(h, data[|data| - 1]), data[..|data| - 1])
  }

  lemma {:induction false} HashUndone(h: u32, data: seq<byte>)
    ensures Unhash(HashFrom(h, data), data) == h
  {
    if data != [] {
      StepUndone(HashFrom(h, data[..|data| - 1]), data[|data| - 1]);
      HashUndone(h, data[..|data| - 1]);
    }
  }

  // Different states stay different under the same bytes.
  lemma HashFromInjective(h: u32, h': u32, data: seq<byte>)
    requires HashFrom(h, data) == HashFrom(h', data)
    ensures h == h'
  {
    HashUndone(h, data);
    HashUndone(h', data);
  }

  lemma {:induction false} HashFromConcat(h: u32, s: seq<byte>, t: seq<byte>)
    ensures HashFrom(h, s + t) == HashFrom(HashFrom(h, s), t)
    decreases t
  {
    if t == [] {
      assert s + t == s;
    } else {
      assert (s + t)[..|s + t| - 1] == s + t[..|t| - 1];
      HashFromConcat(h, s, t[..|t| - 1]);
    }
  }

  ghost predicate DifferOnlyAt(s: seq<byte>, t: seq<byte>, i: nat) {
    && i < |s| == |t| && s[i] != t[i]
    && s[..i] == t[..i] && s[i + 1..] == t[i + 1..]
  }

  // Strings that differ in exactly one position never collide.
  lemma OneByteChangesHash(s: seq<byte>, t: seq<byte>, i: nat)
    requires DifferOnlyAt(s, t, i)
    ensures Fnv1a(s) != Fnv1a(t)
  {
    var h := HashFrom(OFFSET_BASIS, s[..i]);
    assert s == s[..i] + [s[i]] + s[i + 1..] && t == t[..i] + [t[i]] + t[i + 1..];
    HashFromConcat(OFFSET_BASIS, s[..i] + [s[i]], s[i + 1..]);
    HashFromConcat(OFFSET_BASIS, t[..i] + [t[i]], t[i + 1..]);
    HashOneMore(OFFSET_BASIS, s[..i], s[i]);
    HashOneMore(OFFSET_BASIS, t[..i], t[i]);
    if Fnv1a(s) == Fnv1a(t) {
      HashFromInjective(HashStep(h, s[i]), HashStep(h, t[i]), s[i + 1..]);
      StepInjective(h, s[i], h, t[i]);
      XorCommutes(h, s[i]);
      XorCommutes(h, t[i]);
      XorTwice(s[i], h);
      XorTwice(t[i], h);
    }
  }

  lemma HashOneMore(h: u32, s: seq<byte>, b: byte)
    ensures HashFrom(h, s + [b]) == HashStep(HashFrom(h, s), b)
  {
    assert (s + [b])[..|s|] == s;
  }

  // ---------- images ----------

  datatype Image = Image(data: Buffer, length: nat, signature: u32)

  datatype Status = ExportOk | InvalidArgument | LengthMismatch | ByteMismatch | HashMismatch

  // 4x + 2y
  function LinearRoot(x: u16, y: u16): u32 {
    4 * x + 2 * y
  }

  const HEADER: seq<byte> := [0xF8, 0x00, 0x1C, 0x1D, 0x1E, 0x1F, 0x20, 0xF8]

  function BigEndian(v: u32): (s: seq<byte>)
    ensures |s| == 4
  {
    [v / 0x100_0000 % 256, v / 0x1_0000 % 256, v / 0x100 % 256, v % 256]
  }

  function Body(x: u16, y: u16): (s: seq<byte>)
    ensures |s| == 12
  {
    HEADER + BigEndian(LinearRoot(x, y))
  }

  function Compile(x: u16, y: u16): Image {
    Image(Body(x, y) + seq(52, _ => 0), 12, Fnv1a(Body(x, y)))
  }

  // The image byte by byte: a fixed header, 4x + 2y with the highest byte first, zeros.
  ghost predicate IsCompiled(image: Image, x: u16, y: u16) {
    && image.length == 12 && image.signature == Fnv1a(image.data[..12])
    && image.data[..8] == [0xF8, 0x00, 0x1C, 0x1D, 0x1E, 0x1F, 0x20, 0xF8]
    && 0x100_0000 * (image.data[8] as int) + 0x1_0000 * (image.data[9] as int)
       + 0x100 * (image.data[10] as int) + image.data[11] as int == 4 * x + 2 * y
    && forall i :: 12 <= i < 64 ==> image.data[i] == 0
  }

  lemma CompileWritesImage(x: u16, y: u16)
    ensures IsCompiled(Compile(x, y), x, y)
  {
    var data, root := Compile(x, y).data, BigEndian(LinearRoot(x, y));
    SignedCompiled(x, y);
    Digits(LinearRoot(x, y));
    assert data[8] == root[0] && data[9] == root[1] && data[10] == root[2] && data[11] == root[3];
  }

  method MetaCompile(x: u16, y: u16) returns (image: Image)
    ensures image == Compile(x, y) && IsCompiled(image, x, y)
  {
    var data := new byte[BUFFER_MAX](_ => 0);
    data[0], data[1], data[2], data[3] := 0xF8, 0x00, 0x1C, 0x1D;
    data[4], data[5], data[6], data[7] := 0x1E, 0x1F, 0x20, 0xF8;
    assert data[..8] == HEADER;
    var root := LinearRoot(x, y);
    PutBigEndian(data, 8, root);
    assert data[..12] == data[..8] + data[8..12];
    var signature := ComputeFnv1a(data, 12);
    image := Image(data[..], 12, signature);
    assert data[..] == data[..12] + data[12..];
    assert image == Compile(x, y);
    CompileWritesImage(x, y);
  }

  // The four shifts and masks of the tracking form.
  method PutBigEndian(data: array<byte>, at: nat, v: u32)
    requires at + 4 <= data.Length
    modifies data
    ensures data[..at] == old(data[..at]) && data[at + 4..] == old(data[at + 4..])
    ensures data[at..at + 4] == BigEndian(v)
  {
    data[at] := v / 0x100_0000 % 256;
    data[at + 1] := v / 0x1_0000 % 256;
    data[at + 2] := v / 0x100 % 256;
    data[at + 3] := v % 256;
  }

  // ---------- comparison ----------

  // First index below n at which the buffers differ, or n.
  function FirstMismatch(s: Buffer, t: Buffer, n: nat): (i: nat)
    requires n <= BUFFER_MAX
    ensures i <= n && s[..i] == t[..i] && (i < n ==> s[i] != t[i])
  {
    if n == 0 then 0
    else
      var i := FirstMismatch(s, t, n - 1);
      if i < n - 1 then i
      else if s[n - 1] != t[n - 1] then n - 1
      else
        assert s[..n] == s[..n - 1] + [s[n - 1]] && t[..n] == t[..n - 1] + [t[n - 1]];
        n
  }

  function CompareStatus(a: Image, b: Image): Status {
    if a.length > BUFFER_MAX || b.length > BUFFER_MAX then InvalidArgument
    else if a.length != b.length then LengthMismatch
    else if a.signature != b.signature then HashMismatch
    else if FirstMismatch(a.data, b.data, a.length) < a.length then ByteMismatch
    else ExportOk
  }

  datatype Index = NotWritten | At(index: nat)

  // The index is written only when bytes were compared: the first difference, or
  // the common length.
  method Compare(a: Image, b: Image) returns (status: Status, mismatch: Index)
    ensures status == CompareStatus(a, b)
    ensures status == InvalidArgument <==> a.length > 64 || b.length > 64
    ensures status == LengthMismatch <==> a.length <= 64 && b.length <= 64 && a.length != b.length
    ensures status == HashMismatch <==> a.length == b.length <= 64 && a.signature != b.signature
    ensures status == ByteMismatch <==>
      a.length == b.length <= 64 && a.signature == b.signature && a.data[..a.length] != b.data[..b.length]
    ensures status == ByteMismatch ==>
      mismatch.At? && mismatch.index < a.length && a.data[mismatch.index] != b.data[mismatch.index]
      && a.data[..mismatch.index] == b.data[..mismatch.index]
    ensures status == ExportOk ==> mismatch == At(a.length)
    ensures status != ExportOk && status != ByteMismatch ==> mismatch == NotWritten
    ensures status == ExportOk || status == ByteMismatch ==> mismatch == At(FirstMismatch(a.data, b.data, a.length))
  {
    if a.length > BUFFER_MAX || b.length > BUFFER_MAX {
      return InvalidArgument, NotWritten;
    }
    if a.length != b.length {
      return LengthMismatch, NotWritten;
    }
    if a.signature != b.signature {
      return HashMismatch, NotWritten;
    }
    for i := 0 to a.length
      invariant FirstMismatch(a.data, b.data, i) == i
    {
      if a.data[i] != b.data[i] {
        assert FirstMismatch(a.data, b.data, i + 1) == i;
        MismatchIsFirst(a.data, b.data, i + 1, a.length);
        return ByteMismatch, At(i);
      }
    }
    return ExportOk, At(a.length);
  }

  lemma {:induction false} MismatchIsFirst(s: Buffer, t: Buffer, n: nat, m: nat)
    requires n <= m <= BUFFER_MAX && FirstMismatch(s, t, n) < n
    ensures FirstMismatch(s, t, m) == FirstMismatch(s, t, n)
    decreases m
  {
    if n < m {
      MismatchIsFirst(s, t, n, m - 1);
    }
  }

  ghost predicate Signed(a: Image) {
    a.length <= BUFFER_MAX && a.signature == Fnv1a(a.data[..a.length])
  }

  // On correctly signed images, OK means exactly equal content.
  lemma SignedOkIff(a: Image, b: Image)
    requires Signed(a) && Signed(b)
    ensures CompareStatus(a, b) == ExportOk <==> a.data[..a.length] == b.data[..b.length]
  {
    if a.data[..a.length] == b.data[..b.length] {
      assert a.length == |a.data[..a.length]| == |b.data[..b.length]| == b.length;
      assert forall i :: 0 <= i < a.length ==> a.data[i] == a.data[..a.length][i] == b.data[..b.length][i] == b.data[i];
    }
  }

  // A single changed byte is always caught by the hash.
  lemma OneByteIsHashMismatch(a: Image, b: Image, i: nat)
    requires Signed(a) && Signed(b) && a.length == b.length
    requires DifferOnlyAt(a.data[..a.length], b.data[..b.length], i)
    ensures CompareStatus(a, b) == HashMismatch
  {
    OneByteChangesHash(a.data[..a.length], b.data[..b.length], i);
  }

  lemma Digits(v: u32)
    ensures var s := BigEndian(v);
      v == 0x100_0000 * (s[0] as int) + 0x1_0000 * (s[1] as int) + 0x100 * (s[2] as int) + s[3] as int
  {
    var a := v / 0x100;
    var b := a / 0x100;
    assert v / 0x1_0000 == b;
    assert v / 0x100_0000 == b / 0x100;
  }

  lemma BigEndianInjective(v: u32, w: u32)
    requires BigEndian(v) == BigEndian(w)
    ensures v == w
  {
    Digits(v);
    Digits(w);
  }

  // Compiled images compare OK exactly when their tracking forms agree, so only
  // (0, 0) compares OK with the first form.
  lemma CompiledOkIff(x: u16, y: u16, x': u16, y': u16)
    ensures CompareStatus(Compile(x, y), Compile(x', y')) == ExportOk <==> 4 * x + 2 * y == 4 * x' + 2 * y'
    ensures x' == 0 && y' == 0 ==>
      (CompareStatus(Compile(x, y), Compile(x', y')) == ExportOk <==> x == 0 && y == 0)
  {
    SignedCompiled(x, y);
    SignedCompiled(x', y');
    SignedOkIff(Compile(x, y), Compile(x', y'));
    BodyInjective(x, y, x', y');
  }

  lemma SignedCompiled(x: u16, y: u16)
    ensures Signed(Compile(x, y)) && Compile(x, y).data[..12] == Body(x, y)
  {
  }

  lemma BodyInjective(x: u16, y: u16, x': u16, y': u16)
    ensures Body(x, y) == Body(x', y') <==> LinearRoot(x, y) == LinearRoot(x', y')
  {
    if Body(x, y) == Body(x', y') {
      assert Body(x, y)[8..] == BigEndian(LinearRoot(x, y)) && Body(x', y')[8..] == BigEndian(LinearRoot(x', y'));
      BigEndianInjective(LinearRoot(x, y), LinearRoot(x', y'));
    }
  }
}
