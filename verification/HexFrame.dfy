// The textual address frame of examples/esp32/esp32_omi_core.c: eight groups of
// four hexadecimal digits joined by '-'.
module HexFrame {
  import opened WordTypes

  import opened Powers
  import opened Words

  const SEGMENTS: nat := 8
  const FRAME_LENGTH: nat := 39

  // ---------- digits ----------

  function HexValue(c: char): int {
    if '0' <= c <= '9' then c as int - '0' as int
    else if 'a' <= c <= 'f' then 10 + c as int - 'a' as int
    else if 'A' <= c <= 'F' then 10 + c as int - 'A' as int
    else -1
  }

  function HexChar(v: nat): char
    requires v < 16
  {
    "0123456789abcdef"[v]
  }

  function Lower(c: char): char {
    if 'A' <= c <= 'Z' then (c as int - 'A' as int + 'a' as int) as char else c
  }

  lemma HexDigits(c: char, v: nat)
    ensures v < 16 ==> HexValue(HexChar(v)) == v
    ensures 0 <= HexValue(c) ==> HexValue(c) < 16 && HexChar(HexValue(c)) == Lower(c)
    ensures Lower('-') == '-'
  {
  }

  // The sixteen digits, in either case.
  lemma HexValueIff(c: char, v: nat)
    requires v < 16
    ensures HexValue(c) == v <==> c == "0123456789abcdef"[v] || c == "0123456789ABCDEF"[v]
  {
  }

  lemma LowerDigits(v: nat)
    requires v < 16
    ensures HexChar(v) == "0123456789abcdef"[v] == Lower("0123456789ABCDEF"[v])
  {
  }

  lemma HexValueRefuses(c: char)
    ensures HexValue(c) == -1 <==> c !in "0123456789abcdefABCDEF"
  {
  }

  // ---------- segments ----------

  predicate IsGroup(s: string) {
    |s| == 4 && forall i :: 0 <= i < 4 ==> HexValue(s[i]) >= 0
  }

  function SegmentValue(s: string): u16
    requires IsGroup(s)
  {
    HexDigits(s[0], 0);
    HexDigits(s[1], 0);
    HexDigits(s[2], 0);
    HexDigits(s[3], 0);
    4096 * HexValue(s[0]) + 256 * HexValue(s[1]) + 16 * HexValue(s[2]) + HexValue(s[3])
  }

  function PrintSegment(v: u16): string {
    [HexChar(v / 4096), HexChar(v / 256 % 16), HexChar(v / 16 % 16), HexChar(v % 16)]
  }

  function LowerAll(s: string): (t: string)
    ensures |t| == |s|
    ensures forall i :: 0 <= i < |s| ==> t[i] == Lower(s[i])
  {
    seq(|s|, i requires 0 <= i < |s| => Lower(s[i]))
  }

  lemma Nibbles(a: nat, b: nat, c: nat, d: nat, v: nat)
    requires a < 16 && b < 16 && c < 16 && d < 16 && v == 4096 * a + 256 * b + 16 * c + d
    ensures v / 4096 == a && v / 256 % 16 == b && v / 16 % 16 == c && v % 16 == d
  {
    assert v / 256 == 16 * a + b && v / 16 == 256 * a + 16 * b + c;
  }

  lemma FourNibbles(v: u16)
    ensures v / 4096 < 16
    ensures v == 4096 * (v / 4096) + 256 * (v / 256 % 16) + 16 * (v / 16 % 16) + v % 16
  {
    assert v / 16 / 16 == v / 256 && v / 256 / 16 == v / 4096;
  }

  lemma PrintThenParse(v: u16)
    ensures IsGroup(PrintSegment(v)) && SegmentValue(PrintSegment(v)) == v
  {
    FourNibbles(v);
    HexDigits('0', v / 4096);
    HexDigits('0', v / 256 % 16);
    HexDigits('0', v / 16 % 16);
    HexDigits('0', v % 16);
  }

  lemma ParseThenPrint(s: string)
    requires IsGroup(s)
    ensures PrintSegment(SegmentValue(s)) == LowerAll(s)
  {
    HexDigits(s[0], 0);
    HexDigits(s[1], 0);
    HexDigits(s[2], 0);
    HexDigits(s[3], 0);
    Nibbles(HexValue(s[0]), HexValue(s[1]), HexValue(s[2]), HexValue(s[3]), SegmentValue(s));
  }

  // ---------- frames ----------

  function Group(s: string, k: nat): string
    requires 5 * k + 4 <= |s|
  {
    s[5 * k..5 * k + 4]
  }

  predicate GroupAt(s: string, k: nat)
    requires 5 * k + 4 <= |s|
  {
    IsGroup(Group(s, k))
  }

  predicate JoinAt(s: string, k: nat)
    requires 5 * k + 4 < |s|
  {
    s[5 * k + 4] == '-'
  }

  // n groups joined by '-'
  predicate IsFrame(s: string, n: nat) {
    && n > 0 && |s| == 5 * n - 1
    && (forall k :: 0 <= k < n ==> GroupAt(s, k))
    && (forall k :: 0 <= k < n - 1 ==> JoinAt(s, k))
  }

  function Segments(s: string, n: nat): (segments: seq<u16>)
    requires IsFrame(s, n)
    ensures |segments| == n
  {
    seq(n, k requires 0 <= k < n => assert GroupAt(s, k); SegmentValue(Group(s, k)))
  }

  function PrintFrame(segments: seq<u16>): (s: string)
    requires segments != []
    ensures |s| == 5 * |segments| - 1
  {
    if |segments| == 1 then PrintSegment(segments[0])
    else PrintFrame(segments[..|segments| - 1]) + "-" + PrintSegment(segments[|segments| - 1])
  }

  // Appending a group to a frame keeps the groups before it.
  lemma AppendedGroup(s: string, last: string, t: string, k: nat)
    requires t == s + "-" + last && |last| == 4
    ensures 5 * k + 4 <= |s| ==> Group(t, k) == Group(s, k)
    ensures 5 * k + 4 < |s| && JoinAt(s, k) ==> JoinAt(t, k)
    ensures 5 * k + 4 == |s| ==> JoinAt(t, k)
    ensures 5 * k == |s| + 1 ==> Group(t, k) == last
  {
  }

  lemma {:induction false} PrintedGroups(segments: seq<u16>, k: nat)
    requires k < |segments|
    ensures Group(PrintFrame(segments), k) == PrintSegment(segments[k])
    ensures k < |segments| - 1 ==> JoinAt(PrintFrame(segments), k)
  {
    if |segments| > 1 {
      var before, last := segments[..|segments| - 1], segments[|segments| - 1];
      AppendedGroup(PrintFrame(before), PrintSegment(last), PrintFrame(segments), k);
      if k < |before| {
        PrintedGroups(before, k);
      }
    }
  }

  // Printing any segments gives a frame, and parsing it gives them back.
  lemma PrintThenParseFrame(segments: seq<u16>)
    requires segments != []
    ensures IsFrame(PrintFrame(segments), |segments|)
    ensures Segments(PrintFrame(segments), |segments|) == segments
  {
    forall k | 0 <= k < |segments|
      ensures GroupAt(PrintFrame(segments), k) && SegmentValue(Group(PrintFrame(segments), k)) == segments[k]
      ensures k < |segments| - 1 ==> JoinAt(PrintFrame(segments), k)
    {
      PrintedGroups(segments, k);
      PrintThenParse(segments[k]);
    }
  }

  lemma LowerAt(s: string, t: string, k: nat, r: nat)
    requires r < 5 && 5 * k + r < |s| == |t| && 5 * k + 4 <= |s|
    requires Group(t, k) == LowerAll(Group(s, k))
    requires r == 4 ==> JoinAt(s, k) && JoinAt(t, k)
    ensures t[5 * k + r] == Lower(s[5 * k + r])
  {
    if r < 4 {
      assert Group(t, k)[r] == t[5 * k + r] && Group(s, k)[r] == s[5 * k + r];
    } else {
      HexDigits('-', 0);
    }
  }

  lemma PrintedLowerAt(s: string, n: nat, k: nat, r: nat)
    requires IsFrame(s, n) && r < 5 && 5 * k + r < |s|
    ensures PrintFrame(Segments(s, n))[5 * k + r] == Lower(s[5 * k + r])
  {
    PrintedGroups(Segments(s, n), k);
    assert GroupAt(s, k);
    ParseThenPrint(Group(s, k));
    assert r == 4 ==> JoinAt(s, k);
    LowerAt(s, PrintFrame(Segments(s, n)), k, r);
  }

  // Parsing a frame and printing the segments gives the frame in lower case.
  lemma PrintedLower(s: string, n: nat, i: nat)
    requires IsFrame(s, n) && i < |s|
    ensures PrintFrame(Segments(s, n))[i] == Lower(s[i])
  {
    var k, r := i / 5, i % 5;
    assert i == 5 * k + r && r < 5;
    PrintedLowerAt(s, n, k, r);
  }

  lemma ParseThenPrintFrame(s: string, n: nat)
    requires IsFrame(s, n)
    ensures PrintFrame(Segments(s, n)) == LowerAll(s)
  {
    forall i | 0 <= i < |s| ensures PrintFrame(Segments(s, n))[i] == Lower(s[i]) {
      PrintedLower(s, n, i);
    }
  }

  // ---------- the parser as written ----------

  // value << 4 | nibble, truncated to sixteen bits
  function ShiftIn(value: u16, nibble: nat): u16 {
    Truncate(Or(value * 16, nibble))
  }

  function Truncate(v: nat): u16 {
    v % 0x1_0000
  }

  lemma Fits(v: nat)
    requires v < 0x1_0000
    ensures Truncate(v) == v
  {
  }

  lemma OrNibble(value: nat, nibble: nat)
    requires nibble < 16
    ensures Or(value * 16, nibble) == 16 * value + nibble
  {
    assert Pow2(4) == 16;
    OrIsPlus(value, 4, nibble);
  }

  lemma ShiftInAppends(value: u16, nibble: nat)
    requires value < 4096 && nibble < 16
    ensures ShiftIn(value, nibble) == 16 * value + nibble
  {
    OrNibble(value, nibble);
    Fits(16 * value + nibble);
  }

  // The value of the first i digits.
  function Prefix(s: string, i: nat): int
    requires i <= |s|
  {
    if i == 0 then 0 else 16 * Prefix(s, i - 1) + HexValue(s[i - 1])
  }

  lemma PrefixIsValue(s: string)
    requires IsGroup(s)
    ensures Prefix(s, 4) == SegmentValue(s)
  {
    assert Prefix(s, 1) == HexValue(s[0]);
    assert Prefix(s, 2) == 16 * HexValue(s[0]) + HexValue(s[1]);
    assert Prefix(s, 3) == 16 * Prefix(s, 2) + HexValue(s[2]);
  }

  ghost predicate DigitsBefore(s: string, i: nat)
    requires i <= |s|
  {
    forall j :: 0 <= j < i ==> HexValue(s[j]) >= 0
  }

  lemma {:induction false} PrefixBelow(s: string, i: nat)
    requires i <= |s| && DigitsBefore(s, i)
    ensures 0 <= Prefix(s, i) < Pow2(4 * i)
  {
    if i > 0 {
      PrefixBelow(s, i - 1);
      HexDigits(s[i - 1], 0);
      Pow2Add(4, 4 * (i - 1));
      assert Pow2(4) == 16;
    }
  }

  lemma PrefixStep(s: string, i: nat, value: u16, nibble: nat)
    requires i < 4 == |s| && DigitsBefore(s, i) && value == Prefix(s, i) && nibble == HexValue(s[i])
    ensures DigitsBefore(s, i + 1) && ShiftIn(value, nibble) == Prefix(s, i + 1)
  {
    PrefixBelow(s, i);
    Pow2Monotone(4 * i, 12);
    assert Pow2(12) == 4096;
    HexDigits(s[i], 0);
    ShiftInAppends(value, nibble);
  }

  method ParseSegment(text: string, offset: nat) returns (ok: bool, value: u16)
    requires offset + 4 <= |text|
    ensures ok <==> IsGroup(text[offset..offset + 4])
    ensures ok ==> value == SegmentValue(text[offset..offset + 4])
    ensures ok ==> value == FourDigits(text, offset)
  {
    ghost var s := text[offset..offset + 4];
    value := 0;
    for i := 0 to 4
      invariant DigitsBefore(s, i) && value == Prefix(s, i)
    {
      assert text[offset + i] == s[i];
      var nibble := HexValue(text[offset + i]);
      if nibble < 0 {
        return false, value;
      }
      PrefixStep(s, i, value, nibble);
      value := ShiftIn(value, nibble);
    }
    assert IsGroup(s);
    PrefixIsValue(s);
    ok := true;
  }

  // Four digits, the highest first
  function FourDigits(text: string, at: nat): int
    requires at + 4 <= |text|
  {
    0x1000 * HexValue(text[at]) + 0x100 * HexValue(text[at + 1])
    + 0x10 * HexValue(text[at + 2]) + HexValue(text[at + 3])
  }

  ghost predicate Parsed(text: string, k: nat, value: u16)
    requires |text| == FRAME_LENGTH && k < SEGMENTS
  {
    GroupAt(text, k) && value == SegmentValue(Group(text, k)) == FourDigits(text, 5 * k)
  }

  // What position i of a frame holds: a joint in every fifth place, else a digit.
  predicate FrameChar(c: char, i: nat) {
    if i % 5 == 4 then c == '-' else HexValue(c) != -1
  }

  predicate LooksLikeFrame(text: string) {
    |text| == 39 && forall i :: 0 <= i < 39 ==> FrameChar(text[i], i)
  }

  lemma FrameIff(text: string)
    ensures IsFrame(text, SEGMENTS) <==> LooksLikeFrame(text)
  {
    if LooksLikeFrame(text) {
      forall k | 0 <= k < 8 ensures GroupAt(text, k) {
        assert FrameChar(text[5 * k], 5 * k) && FrameChar(text[5 * k + 1], 5 * k + 1);
        assert FrameChar(text[5 * k + 2], 5 * k + 2) && FrameChar(text[5 * k + 3], 5 * k + 3);
      }
      forall k | 0 <= k < 7 ensures JoinAt(text, k) {
        assert FrameChar(text[5 * k + 4], 5 * k + 4);
      }
    }
    if IsFrame(text, SEGMENTS) {
      forall i | 0 <= i < 39 ensures FrameChar(text[i], i) {
        FrameCharAt(text, i / 5, i % 5);
      }
    }
  }

  lemma FrameCharAt(text: string, k: nat, r: nat)
    requires IsFrame(text, SEGMENTS) && r < 5 && 5 * k + r < 39
    ensures FrameChar(text[5 * k + r], 5 * k + r)
  {
    assert GroupAt(text, k);
    if r < 4 {
      assert Group(text, k)[r] == text[5 * k + r];
    } else {
      assert JoinAt(text, k);
    }
  }

  // The first n groups are parsed, and the joints behind them are in place.
  ghost predicate ParsedTo(text: string, segments: seq<u16>, n: nat)
    requires |text| == FRAME_LENGTH && |segments| == SEGMENTS && n <= SEGMENTS
  {
    && (forall k :: 0 <= k < n ==> Parsed(text, k, segments[k]))
    && (forall k :: 0 <= k < n && k < SEGMENTS - 1 ==> JoinAt(text, k))
  }

  lemma ParsedAll(text: string, segments: seq<u16>)
    requires |text| == FRAME_LENGTH && |segments| == SEGMENTS && ParsedTo(text, segments, SEGMENTS)
    ensures IsFrame(text, SEGMENTS) && LooksLikeFrame(text) && segments == Segments(text, SEGMENTS)
    ensures forall k :: 0 <= k < 8 ==> segments[k] == FourDigits(text, 5 * k)
  {
    assert forall k :: 0 <= k < 8 ==> Parsed(text, k, segments[k]) && GroupAt(text, k);
    FrameIff(text);
  }

  lemma NotAFrame(text: string, i: nat)
    requires i < SEGMENTS && |text| == FRAME_LENGTH
    requires !GroupAt(text, i) || (i < SEGMENTS - 1 && !JoinAt(text, i))
    ensures !IsFrame(text, SEGMENTS) && !LooksLikeFrame(text)
  {
    FrameIff(text);
  }

  // Success means the text is a frame.  A failure may leave some segments written,
  // each with the value of its own group.
  method ParseFrame(text: string, segments: array<u16>) returns (ok: bool)
    requires segments.Length == SEGMENTS
    modifies segments
    ensures ok <==> IsFrame(text, SEGMENTS)
    ensures ok <==> LooksLikeFrame(text)
    ensures ok ==> segments[..] == Segments(text, SEGMENTS)
    ensures ok ==> forall k :: 0 <= k < 8 ==> segments[k] == FourDigits(text, 5 * k)
    ensures |text| != FRAME_LENGTH ==> segments[..] == old(segments[..])
    ensures |text| == FRAME_LENGTH ==> forall k :: 0 <= k < SEGMENTS ==>
      segments[k] == old(segments[k]) || Parsed(text, k, segments[k])
  {
    if |text| != FRAME_LENGTH {
      return false;
    }
    for i := 0 to SEGMENTS
      invariant ParsedTo(text, segments[..], i)
      invariant forall k :: i <= k < SEGMENTS ==> segments[k] == old(segments[k])
    {
      var offset := i * 5;
      var good, value := ParseSegment(text, offset);
      if !good {
        NotAFrame(text, i);
        return false;
      }
      assert Parsed(text, i, value);
      segments[i] := value;
      if i < SEGMENTS - 1 && text[offset + 4] != '-' {
        NotAFrame(text, i);
        return false;
      }
    }
    ParsedAll(text, segments[..]);
    return true;
  }
}
