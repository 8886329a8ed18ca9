// The 256-coordinate boards of src/omnicron-coproduct-partition.c: four 64-bit
// lanes, bit p of the board being bit p%64 of lane p/64.
module Board {
  import opened WordTypes
  import opened Powers
  import opened Words

  type Board256 = lane: seq<u64> | |lane| == 4 witness [0, 0, 0, 0]

  const PLANE_SIZE: nat := 256

  const CLEAR: Board256 := [0, 0, 0, 0]

  predicate Test(b: Board256, p: nat)
    requires p < PLANE_SIZE
  {
    Bit(b[p / 64], p % 64)
  }

  function OrLane(a: u64, b: u64): u64 {
    WordSizes();
    OrBelow(a, b, 64);
    Words.Or(a, b)
  }

  function AndLane(a: u64, b: u64): u64 {
    AndBelow(a, b);
    Words.And(a, b)
  }

  function Or(a: Board256, b: Board256): Board256 {
    [OrLane(a[0], b[0]), OrLane(a[1], b[1]), OrLane(a[2], b[2]), OrLane(a[3], b[3])]
  }

  function And(a: Board256, b: Board256): Board256 {
    [AndLane(a[0], b[0]), AndLane(a[1], b[1]), AndLane(a[2], b[2]), AndLane(a[3], b[3])]
  }

  // ---------- boards are sets of coordinates ----------

  ghost function Coordinates(b: Board256): set<nat> {
    set p: nat | p < PLANE_SIZE && Test(b, p)
  }

  lemma BoardOps(a: Board256, b: Board256, p: nat)
    requires p < PLANE_SIZE
    ensures Test(Or(a, b), p) <==> Test(a, p) || Test(b, p)
    ensures Test(And(a, b), p) <==> Test(a, p) && Test(b, p)
    ensures !Test(CLEAR, p)
  {
    BitOr(a[p / 64], b[p / 64], p % 64);
    BitAnd(a[p / 64], b[p / 64], p % 64);
    BitZero(p % 64);
  }

  // Bitwise or and and of boards are union and intersection of their coordinates.
  lemma BoardsAreSets(a: Board256, b: Board256)
    ensures Coordinates(Or(a, b)) == Coordinates(a) + Coordinates(b)
    ensures Coordinates(And(a, b)) == Coordinates(a) * Coordinates(b)
    ensures Coordinates(CLEAR) == {}
  {
    forall p: nat | p < PLANE_SIZE
      ensures Test(Or(a, b), p) <==> Test(a, p) || Test(b, p)
      ensures Test(And(a, b), p) <==> Test(a, p) && Test(b, p)
      ensures !Test(CLEAR, p)
    {
      BoardOps(a, b, p);
    }
  }

  // ---------- boards are 256-bit numbers ----------

  function Number(b: Board256): nat {
    b[0] + TWO64 * (b[1] + TWO64 * (b[2] + TWO64 * b[3]))
  }

  lemma PairedLane(lo: u64, hi: nat, k: nat)
    ensures Bit(lo + TWO64 * hi, k) <==> if k < 64 then Bit(lo, k) else Bit(hi, k - 64)
  {
    WordSizes();
    BitOfPair(lo, hi, 64, k);
  }

  lemma NumberBit(b: Board256, i: nat, k: nat)
    requires i < 4 && k < 64
    ensures Bit(Number(b), 64 * i + k) <==> Bit(b[i], k)
  {
    var top := b[2] + TWO64 * b[3];
    var upper := b[1] + TWO64 * top;
    PairedLane(b[0], upper, 64 * i + k);
    if i > 0 {
      PairedLane(b[1], top, 64 * (i - 1) + k);
    }
    if i > 1 {
      PairedLane(b[2], b[3], 64 * (i - 2) + k);
    }
  }

  // Coordinate p is binary digit p of the four lanes side by side, lowest lane first.
  lemma TestReadsNumber(b: Board256, p: nat)
    requires p < 256
    ensures Test(b, p) <==> Number(b) / Pow2(p) % 2 == 1
  {
    var i, k := p / 64, p % 64;
    NumberBit(b, i, k);
    assert p == 64 * i + k;
    BitIsDigit(Number(b), p);
  }
}
