/**
 * The security-access helper: three seed/key algorithms and the attempt
 * counter with its three-strike lockout.
 *
 * The key algorithms work on JavaScript's 32-bit integers.  Every value here
 * is the unsigned bit pattern of such an integer: `x & 0xFF` is `x % 256`,
 * `(x >> 8) & 0xFF` is `(x / 256) % 256`, and a level enters `^` as
 * `level % 2^32`, which has the bits of `ToInt32(level)`.
 */
module Security {
  import opened Wrappers
  import opened Bits
  import opened Hex
  import opened Text

  const TwoTo32 := 0x1_0000_0000

  /** The level the source uses when the caller gives none. */
  const DefaultLevel := 0x01

  const LockedOutMessage := "Security locked out - too many failed attempts"

  // The VW/Audi algorithm

  /** The four magic constants, used round-robin. */
  function VwMagic(i: nat): (m: int)
    ensures IsByte(m)
  {
    [0x52, 0x91, 0x73, 0xA4][i % 4]
  }

  /** `((key << 1) | (key >> 7)) & 0xFF` on a byte. */
  function RotateLeft(k: int): (r: int)
    requires IsByte(k)
    ensures IsByte(r)
  {
    Or(2 * k, k / 128) % 256
  }

  /** One round: mix in the seed byte and the magic constant, then rotate. */
  function VwStep(key: int, b: int, i: nat): (r: int)
    requires IsByte(key) && IsByte(b)
    ensures IsByte(r)
  {
    assert Pow2(8) == 256;
    XorBound(key, b, 8);
    XorBound(Xor(key, b), VwMagic(i), 8);
    RotateLeft(Xor(Xor(key, b), VwMagic(i)))
  }

  /** The accumulator after the loop has consumed `bs`; it never leaves a byte. */
  function VwAccumulator(bs: seq<int>): (acc: int)
    requires IsBytes(bs)
    ensures IsByte(acc)
    decreases |bs|
  {
    if bs == [] then 0 else VwStep(VwAccumulator(bs[..|bs| - 1]), bs[|bs| - 1], |bs| - 1)
  }

  /** The two key bytes, low byte first, after the level is mixed in. */
  function VwKeyBytes(bs: seq<int>, level: int): seq<int>
    requires IsBytes(bs)
  {
    var key := Xor(VwAccumulator(bs), level % TwoTo32);
    [key % 256, (key / 256) % 256]
  }

  // The Nissan algorithm

  /** One round: `(key + b * 0x47 + 0x9C) & 0xFFFF`. */
  function NissanStep(key: int, b: int): (r: int)
    requires 0 <= key < 0x1_0000 && IsByte(b)
    ensures 0 <= r < 0x1_0000
  {
    (key + b * 0x47 + 0x9C) % 0x1_0000
  }

  /** The accumulator after the loop has consumed `bs`: always 16 bits. */
  function NissanAccumulator(bs: seq<int>): (acc: int)
    requires IsBytes(bs)
    ensures 0 <= acc < 0x1_0000
    decreases |bs|
  {
    if bs == [] then 0 else NissanStep(NissanAccumulator(bs[..|bs| - 1]), bs[|bs| - 1])
  }

  /** The two key bytes, high byte first, after `level << 8` is mixed in. */
  function NissanKeyBytes(bs: seq<int>, level: int): seq<int>
    requires IsBytes(bs)
  {
    var key := Xor(NissanAccumulator(bs), (level * 0x100) % TwoTo32);
    [(key / 256) % 256, key % 256]
  }

  // The generic algorithm

  /** `1 << (i * 8)`: JavaScript takes the shift count modulo 32. */
  function ShiftFactor(i: nat): (f: nat)
    ensures f >= 1
  {
    if i % 4 == 0 then 1
    else if i % 4 == 1 then 0x100
    else if i % 4 == 2 then 0x1_0000
    else 0x100_0000
  }

  /**
   * The accumulator after the loop has consumed `bs`: each byte shifted into
   * place and combined with `^`.  A byte shifted by 24 stays below `2^32`, so
   * no truncation is needed.
   */
  function GenericAccumulator(bs: seq<int>): nat
    requires IsBytes(bs)
    decreases |bs|
  {
    if bs == [] then 0 else Xor(GenericAccumulator(bs[..|bs| - 1]), bs[|bs| - 1] * ShiftFactor(|bs| - 1))
  }

  /** The two key bytes, high byte first; the level plays no part. */
  function GenericKeyBytes(bs: seq<int>): seq<int>
    requires IsBytes(bs)
  {
    var key := GenericAccumulator(bs);
    [(key / 256) % 256, key % 256]
  }

  // Choosing the algorithm

  datatype Algorithm = VwAlgorithm | NissanAlgorithm | GenericAlgorithm

  const VwNames: set<string> := {"vw", "volkswagen", "audi", "porsche", "seat", "skoda"}

  const NissanNames: set<string> := {"nissan", "infiniti", "renault"}

  /** The `switch` in `calculateKey`: an exact match on the lower-cased name. */
  function AlgorithmFor(manufacturer: string): Algorithm
  {
    var name := Lower(manufacturer);
    if name in VwNames then VwAlgorithm
    else if name in NissanNames then NissanAlgorithm
    else GenericAlgorithm
  }

  /** The key bytes `calculateKey` renders for a seed, a manufacturer and a level. */
  function KeyBytes(bs: seq<int>, manufacturer: string, level: int): seq<int>
    requires IsBytes(bs)
  {
    match AlgorithmFor(manufacturer)
    case VwAlgorithm => VwKeyBytes(bs, level)
    case NissanAlgorithm => NissanKeyBytes(bs, level)
    case GenericAlgorithm => GenericKeyBytes(bs)
  }

  /** `SecurityAccess`: the attempt counter and the seed last asked for. */
  class SecurityAccess {
    var securityLevel: int
    var seedReceived: Option<string>
    var keyAttempts: nat
    var isLockedOut: bool
    /** Lockout timers scheduled and not yet fired; the source's `setTimeout`. */
    var pendingExpiries: nat

    const maxAttempts: nat := 3
    /** Milliseconds until a scheduled expiry fires. */
    const lockoutTime: nat := 10000

    /** Locked out exactly when the attempts reached the maximum, and then a timer is pending. */
    predicate Valid()
      reads this
    {
      (isLockedOut <==> keyAttempts >= maxAttempts) && (isLockedOut ==> pendingExpiries > 0)
    }

    constructor()
      ensures Valid()
      ensures securityLevel == 0 && seedReceived == None && keyAttempts == 0
      ensures !isLockedOut && pendingExpiries == 0
    {
      securityLevel := 0;
      seedReceived := None;
      keyAttempts := 0;
      isLockedOut := false;
      pendingExpiries := 0;
    }

    /** `calculateVWSeedKey(seed, level)`. */
    method CalculateVwSeedKey(seed: string, level: int) returns (key: string)
      requires IsHex(seed)
      ensures key == BytesToHex(VwKeyBytes(HexToBytes(seed), level))
    {
      var seedBytes := ParseHex(seed);
      var acc := 0;
      var i := 0;
      while i < |seedBytes|
        invariant 0 <= i <= |seedBytes|
        invariant acc == VwAccumulator(seedBytes[..i])
      {
        assert seedBytes[..i + 1][..i] == seedBytes[..i];
        acc := VwStep(acc, seedBytes[i], i);
        i := i + 1;
      }
      assert seedBytes[..i] == seedBytes;
      var mixed := Xor(acc, level % TwoTo32);
      key := BytesToHex([mixed % 256, (mixed / 256) % 256]);
    }

    /** `calculateNissanSeedKey(seed, level)`. */
    method CalculateNissanSeedKey(seed: string, level: int) returns (key: string)
      requires IsHex(seed)
      ensures key == BytesToHex(NissanKeyBytes(HexToBytes(seed), level))
    {
      var seedBytes := ParseHex(seed);
      var acc := 0;
      var i := 0;
      while i < |seedBytes|
        invariant 0 <= i <= |seedBytes|
        invariant acc == NissanAccumulator(seedBytes[..i])
      {
        NissanAccumulatorStep(seedBytes, i);
        acc := NissanStep(acc, seedBytes[i]);
        i := i + 1;
      }
      assert seedBytes[..i] == seedBytes;
      var mixed := Xor(acc, (level * 0x100) % TwoTo32);
      key := BytesToHex([(mixed / 256) % 256, mixed % 256]);
    }

    /** `calculateGenericSeedKey(seed)`. */
    method CalculateGenericSeedKey(seed: string) returns (key: string)
      requires IsHex(seed)
      ensures key == BytesToHex(GenericKeyBytes(HexToBytes(seed)))
    {
      var seedBytes := ParseHex(seed);
      var acc: nat := 0;
      var i := 0;
      while i < |seedBytes|
        invariant 0 <= i <= |seedBytes|
        invariant acc == GenericAccumulator(seedBytes[..i])
      {
        assert seedBytes[..i + 1][..i] == seedBytes[..i];
        acc := Xor(acc, seedBytes[i] * ShiftFactor(i));
        i := i + 1;
      }
      assert seedBytes[..i] == seedBytes;
      key := BytesToHex([(acc / 256) % 256, acc % 256]);
    }

    /**
     * `calculateKey(seed, manufacturer, level)`: refused while locked out,
     * otherwise the seed is recorded and the manufacturer's algorithm runs.
     */
    method CalculateKey(seed: string, manufacturer: string, level: int) returns (r: Result<string, string>)
      requires IsHex(seed)
      modifies this
      ensures old(isLockedOut) ==> r == Failure(LockedOutMessage) && seedReceived == old(seedReceived)
      ensures !old(isLockedOut) ==>
                r == Success(BytesToHex(KeyBytes(HexToBytes(seed), manufacturer, level))) && seedReceived == Some(seed)
      ensures securityLevel == old(securityLevel) && keyAttempts == old(keyAttempts)
      ensures isLockedOut == old(isLockedOut) && pendingExpiries == old(pendingExpiries)
    {
      if isLockedOut {
        return Failure(LockedOutMessage);
      }
      seedReceived := Some(seed);
      var key;
      match AlgorithmFor(manufacturer) {
        case VwAlgorithm =>
          key := CalculateVwSeedKey(seed, level);
        case NissanAlgorithm =>
          key := CalculateNissanSeedKey(seed, level);
        case GenericAlgorithm =>
          key := CalculateGenericSeedKey(seed);
      }
      r := Success(key);
    }

    /**
     * `recordAttempt(success)`.  A success clears the counter, raises the
     * level and lifts the lockout; a failure counts, and the one that reaches
     * the maximum locks out and schedules an expiry.
     */
    method RecordAttempt(success: bool)
      requires Valid()
      modifies this
      ensures Valid()
      ensures success ==> keyAttempts == 0 && securityLevel == old(securityLevel) + 1 && !isLockedOut
                          && pendingExpiries == old(pendingExpiries)
      ensures !success ==> keyAttempts == old(keyAttempts) + 1 && securityLevel == old(securityLevel)
                           && isLockedOut == (keyAttempts >= maxAttempts)
                           && pendingExpiries == old(pendingExpiries) + (if keyAttempts >= maxAttempts then 1 else 0)
      ensures seedReceived == old(seedReceived)
    {
      if success {
        keyAttempts := 0;
        securityLevel := securityLevel + 1;
        isLockedOut := false;
      } else {
        keyAttempts := keyAttempts + 1;
        if keyAttempts >= maxAttempts {
          isLockedOut := true;
          pendingExpiries := pendingExpiries + 1;
        }
      }
    }

    /** A scheduled expiry fires: the lockout lifts and the counter restarts. */
    method LockoutExpired()
      requires Valid() && pendingExpiries > 0
      modifies this
      ensures Valid()
      ensures !isLockedOut && keyAttempts == 0 && pendingExpiries == old(pendingExpiries) - 1
      ensures securityLevel == old(securityLevel) && seedReceived == old(seedReceived)
    {
      isLockedOut := false;
      keyAttempts := 0;
      pendingExpiries := pendingExpiries - 1;
    }

    /** `reset()`: back to the initial state; timers already scheduled still fire. */
    method Reset()
      requires Valid()
      modifies this
      ensures Valid()
      ensures securityLevel == 0 && seedReceived == None && keyAttempts == 0 && !isLockedOut
      ensures pendingExpiries == old(pendingExpiries)
    {
      securityLevel := 0;
      seedReceived := None;
      keyAttempts := 0;
      isLockedOut := false;
    }
  }

  /**
   * Three failed attempts in a row lock a fresh helper out, so the next key
   * request is refused; once the expiry fires the same request succeeds.
   */
  method ThreeStrikes(seed: string) returns (whileLocked: Result<string, string>, afterExpiry: Result<string, string>)
    requires IsHex(seed)
    ensures whileLocked == Failure(LockedOutMessage)
    ensures afterExpiry == Success(BytesToHex(VwKeyBytes(HexToBytes(seed), DefaultLevel)))
  {
    var access := new SecurityAccess();
    access.RecordAttempt(false);
    access.RecordAttempt(false);
    access.RecordAttempt(false);
    whileLocked := access.CalculateKey(seed, "vw", DefaultLevel);
    access.LockoutExpired();
    afterExpiry := access.CalculateKey(seed, "vw", DefaultLevel);
    VwNamesSelectVw();
  }

  // Properties of the key algorithms

  /** The rotation is a rotation: the top bit comes round to the bottom, and rotating right undoes it. */
  lemma RotateLeftBits(k: int)
    requires IsByte(k)
    ensures RotateLeft(k) == (2 * k) % 256 + k / 128
    ensures RotateLeft(k) / 2 + (RotateLeft(k) % 2) * 128 == k
  {
    var top, rest := k / 128, k % 128;
    assert Or(2 * k, top) == 2 * k + top by {
      assert Pow2(1) == 2;
      LowHighDivMod(2 * k, 1);
      OrDisjoint(2 * k, top, 1);
    }
    assert k == 128 * top + rest && 0 <= rest < 128 && 0 <= top < 2;
    DivModUnique(2 * k, 256, top, 2 * rest);
    DivModUnique(2 * k + top, 256, top, 2 * rest + top);
    var r := 2 * rest + top;
    assert RotateLeft(k) == r;
    Halve(r, rest, top);
  }

  /**
   * With a level that fits in a byte the VW key is the accumulator mixed
   * with the level, then a zero byte: its hex always ends in "00".
   */
  lemma VwKeySmallLevel(bs: seq<int>, level: int)
    requires IsBytes(bs) && 0 <= level < 256
    ensures VwKeyBytes(bs, level) == [Xor(VwAccumulator(bs), level), 0]
    ensures BytesToHex(VwKeyBytes(bs, level))[2..] == "00"
  {
    var acc := VwAccumulator(bs);
    assert level % TwoTo32 == level;
    assert Xor(acc, level) < 256 by {
      assert Pow2(8) == 256;
      XorBound(acc, level, 8);
    }
    var key := Xor(acc, level);
    assert VwKeyBytes(bs, level) == [key, 0];
    ZeroHighByteHex(key);
  }

  /** A zero second byte renders as a trailing "00". */
  lemma ZeroHighByteHex(key: int)
    requires IsByte(key)
    ensures BytesToHex([key, 0])[2..] == "00"
  {
    assert BytesToHex([key, 0]) == ByteToHex(key) + BytesToHex([0]);
    assert BytesToHex([0]) == "00";
  }

  /** One more byte of the seed: one more step of the loop. */
  lemma NissanAccumulatorStep(bs: seq<int>, k: nat)
    requires IsBytes(bs) && k < |bs|
    ensures NissanAccumulator(bs[..k + 1]) == NissanStep(NissanAccumulator(bs[..k]), bs[k])
  {
    assert bs[..k + 1][..k] == bs[..k];
  }

  /** The Nissan key's low byte is the accumulator's: the level cannot reach it. */
  lemma NissanLowByteIgnoresLevel(bs: seq<int>, level: int)
    requires IsBytes(bs)
    ensures NissanKeyBytes(bs, level)[1] == NissanAccumulator(bs) % 256
  {
    var acc, shifted := NissanAccumulator(bs), (level * 0x100) % TwoTo32;
    assert Pow2(8) == 256;
    XorLowSplit(acc, shifted, 8);
    ShiftedLevelBytes(level);
    XorZero(acc % 256);
  }

  /** The Nissan key's high byte is the accumulator's high byte mixed with the level's low byte. */
  lemma NissanHighByte(bs: seq<int>, level: int)
    requires IsBytes(bs)
    ensures NissanKeyBytes(bs, level)[0] == Xor(NissanAccumulator(bs) / 256, level % 256)
  {
    var acc, shifted := NissanAccumulator(bs), (level * 0x100) % TwoTo32;
    var key := Xor(acc, shifted);
    assert NissanKeyBytes(bs, level)[0] == (key / 256) % 256;
    XorAboveByte(acc, shifted);
    XorLowByte(acc / 256, shifted / 256);
    assert (acc / 256) % 256 == acc / 256 by {
      DivModUnique(acc / 256, 256, 0, acc / 256);
    }
    ShiftedLevelBytes(level);
  }

  /** `level << 8` has a zero low byte and the level's low byte above it. */
  lemma ShiftedLevelBytes(level: int)
    ensures var shifted := (level * 0x100) % TwoTo32;
            shifted % 256 == 0 && (shifted / 256) % 256 == level % 256
  {
    var q := (level * 0x100) / TwoTo32;
    var shifted := (level * 0x100) % TwoTo32;
    var m := level - 0x100_0000 * q;
    assert shifted == 256 * m;
    DivModUnique(shifted, 256, m, 0);
    DivModUnique(m, 256, level / 256 - 0x1_0000 * q, level % 256);
  }

  /** A byte shifted into an empty place just adds. */
  lemma ShiftedByteAdds(acc: nat, b: int, i: nat)
    requires IsByte(b) && i < 4 && acc < ShiftFactor(i)
    ensures Xor(acc, b * ShiftFactor(i)) == acc + b * ShiftFactor(i)
  {
    var f := ShiftFactor(i);
    var k := 8 * i;
    assert Pow2(k) == f by {
      Pow2Bytes();
    }
    LowHighDivMod(b * f, k);
    DivModUnique(b * f, f, b, 0);
    XorDisjoint(acc, b * f, k);
  }

  /** One more byte of the seed, shifted into a place the earlier bytes left empty. */
  lemma GenericStepAdds(bs: seq<int>, k: nat)
    requires IsBytes(bs) && k < |bs| && k < 4 && GenericAccumulator(bs[..k]) < ShiftFactor(k)
    ensures GenericAccumulator(bs[..k + 1]) == GenericAccumulator(bs[..k]) + bs[k] * ShiftFactor(k)
  {
    assert bs[..k + 1][..k] == bs[..k];
    ShiftedByteAdds(GenericAccumulator(bs[..k]), bs[k], k);
  }

  /**
   * For a seed of two to four bytes the generic key is the first two seed
   * bytes swapped: later bytes are shifted past the two bytes read back.
   */
  lemma GenericKeySwapsFirstTwo(bs: seq<int>)
    requires IsBytes(bs) && 2 <= |bs| <= 4
    ensures GenericKeyBytes(bs) == [bs[1], bs[0]]
  {
    var key := GenericAccumulator(bs);
    GenericLowTwoBytes(bs);
    var q := key / 0x1_0000;
    assert key == 0x100 * (0x100 * q + bs[1]) + bs[0];
    DivModUnique(key, 256, 0x100 * q + bs[1], bs[0]);
    DivModUnique(0x100 * q + bs[1], 256, q, bs[1]);
  }

  /** The first two bytes of the seed land, untouched, in the low 16 bits. */
  lemma GenericFirstTwoBytes(bs: seq<int>)
    requires IsBytes(bs) && |bs| >= 2
    ensures GenericAccumulator(bs[..2]) == bs[0] + 0x100 * bs[1]
  {
    assert bs[..0] == [];
    GenericStepAdds(bs, 0);
    GenericStepAdds(bs, 1);
  }

  /** The third byte lands above the first two. */
  lemma GenericThreeBytes(bs: seq<int>)
    requires IsBytes(bs) && |bs| >= 3
    ensures GenericAccumulator(bs[..3]) == bs[0] + 0x100 * bs[1] + 0x1_0000 * bs[2]
  {
    GenericFirstTwoBytes(bs);
    GenericStepAdds(bs, 2);
  }

  /** The fourth byte lands above the first three. */
  lemma GenericFourBytes(bs: seq<int>)
    requires IsBytes(bs) && |bs| >= 4
    ensures GenericAccumulator(bs[..4]) == bs[0] + 0x100 * bs[1] + 0x1_0000 * (bs[2] + 0x100 * bs[3])
  {
    GenericThreeBytes(bs);
    GenericStepAdds(bs, 3);
  }

  /** Bytes three and four land above the low 16 bits. */
  lemma GenericLowTwoBytes(bs: seq<int>)
    requires IsBytes(bs) && 2 <= |bs| <= 4
    ensures GenericAccumulator(bs) % 0x1_0000 == bs[0] + 0x100 * bs[1]
  {
    var low := bs[0] + 0x100 * bs[1];
    assert bs[..|bs|] == bs;
    if |bs| == 2 {
      GenericFirstTwoBytes(bs);
      DivModUnique(low, 0x1_0000, 0, low);
    } else if |bs| == 3 {
      GenericThreeBytes(bs);
      DivModUnique(GenericAccumulator(bs), 0x1_0000, bs[2], low);
    } else {
      GenericFourBytes(bs);
      DivModUnique(GenericAccumulator(bs), 0x1_0000, bs[2] + 0x100 * bs[3], low);
    }
  }

  // Properties of the dispatch

  /** Case does not matter: a name and its lower-cased form pick the same algorithm. */
  lemma {:induction false} AlgorithmIgnoresCase(manufacturer: string)
    ensures AlgorithmFor(Lower(manufacturer)) == AlgorithmFor(manufacturer)
  {
    assert Lower(Lower(manufacturer)) == Lower(manufacturer);
  }

  /** "VW", "Audi" and "vw" all pick the VW algorithm, so they give identical keys. */
  lemma VwNamesSelectVw()
    ensures AlgorithmFor("vw") == VwAlgorithm
    ensures AlgorithmFor("VW") == VwAlgorithm && AlgorithmFor("Audi") == VwAlgorithm
  {
    assert Lower("vw") == "vw";
    assert Lower("VW") == "vw";
    assert Lower("Audi") == "audi";
  }

  /** Matching is exact, not by substring: "VW Tiguan" falls through to the generic algorithm. */
  lemma VehicleNameIsGeneric()
    ensures AlgorithmFor("VW Tiguan") == GenericAlgorithm
  {
    assert Lower("VW Tiguan") == "vw tiguan";
  }

  /** Every name the Nissan branch lists picks the Nissan algorithm, in any case. */
  lemma NissanNamesSelectNissan(manufacturer: string)
    requires Lower(manufacturer) in NissanNames
    ensures AlgorithmFor(manufacturer) == NissanAlgorithm
    ensures forall bs, l1, l2 :: IsBytes(bs) ==>
              KeyBytes(bs, manufacturer, l1)[1] == KeyBytes(bs, manufacturer, l2)[1]
  {
    forall bs, l1, l2 | IsBytes(bs)
      ensures KeyBytes(bs, manufacturer, l1)[1] == KeyBytes(bs, manufacturer, l2)[1]
    {
      NissanLowByteIgnoresLevel(bs, l1);
      NissanLowByteIgnoresLevel(bs, l2);
    }
  }

  /** The generic algorithm ignores the level entirely. */
  lemma GenericIgnoresLevel(bs: seq<int>, manufacturer: string, l1: int, l2: int)
    requires IsBytes(bs) && AlgorithmFor(manufacturer) == GenericAlgorithm
    ensures KeyBytes(bs, manufacturer, l1) == KeyBytes(bs, manufacturer, l2) == GenericKeyBytes(bs)
  {
  }
}
