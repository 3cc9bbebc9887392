/** Netmasks and prefix lengths. */
module Netmasks {
  import opened Common
  import opened Words
  import opened Addresses

  // ---- masks in numbers ----

  /** The word of `w` bits whose bits `k` and above are set. */
  function HighMask(w: nat, k: nat): nat
    requires k <= w
  {
    if k < w then Pow2Monotonic(k, w); Pow2(w) - Pow2(k) else 0
  }

  lemma {:induction false} HighMaskLowBits(w: nat, k: nat, i: nat)
    requires k <= w && i <= w
    ensures LowBits(HighMask(w, k), i) == if i <= k then 0 else Pow2(i) - Pow2(k)
    decreases w
  {
    if i > 0 {
      HighMaskHalf(w, k);
      HighMaskLowBits(w - 1, if k == 0 then 0 else k - 1, i - 1);
    }
  }

  lemma HighMaskHalf(w: nat, k: nat)
    requires k <= w && w > 0
    ensures HighMask(w, k) / 2 == HighMask(w - 1, if k == 0 then 0 else k - 1)
    ensures HighMask(w, k) % 2 == if k == 0 then 1 else 0
  {
    if 0 < k < w { Pow2Monotonic(k - 1, w - 1); }
  }

  lemma {:induction false} HighMaskBits(w: nat, k: nat, i: nat)
    requires k <= w && i < w
    ensures Bit(HighMask(w, k), i) <==> k <= i
    decreases w
  {
    HighMaskHalf(w, k);
    if i > 0 {
      HighMaskBits(w - 1, if k == 0 then 0 else k - 1, i - 1);
    }
  }

  lemma {:induction false} LowBitsStep(x: nat, i: nat)
    ensures LowBits(x, i + 1) == LowBits(x, i) + (if Shr(x, i) % 2 == 1 then Pow2(i) else 0)
    ensures Shr(x, i + 1) == Shr(x, i) / 2
  {
    if i > 0 {
      LowBitsStep(x / 2, i - 1);
    }
  }

  // ---- V4 ----

  function MakePackedMaskV4(countBits: Octet): Word32 {
    Pow2Values();
    if countBits >= 32 then Not(0, 32)
    else if countBits == 0 then 0
    else Shl(Not(0, 32), 32 - countBits, 32)
  }

  /** The mask of `n` bits, which is the full one from 32 on. */
  lemma MaskV4Value(n: Octet)
    ensures MakePackedMaskV4(n) == HighMask(32, if n <= 32 then 32 - n else 0)
  {
    hide Scale, Pow2, LowBits;
    Pow2Values();
    assert Pow2(0) == 1 by { Pow2OfZero(); }
    if 0 < n < 32 {
      var k := 32 - n;
      ScaleIsTimes(Not(0, 32), k);
      ShrIsQuotient(Scale(Not(0, 32), k), 32);
      Pow2Monotonic(k, 32);
      QuotientIs(Scale(Not(0, 32), k), 0x1_0000_0000, Pow2(k) - 1, 0x1_0000_0000 - Pow2(k));
    }
  }

  lemma Pow2OfZero()
    ensures Pow2(0) == 1
  {
  }

  /** The netmasks of V4: those made for a prefix length from 1 to 32. */
  predicate IsMaskV4(netmask: Address) {
    netmask.V4? && exists n :: 1 <= n <= 32 && PackV4(netmask.octets) == MakePackedMaskV4(n)
  }

  /** `i` bits have been looked at; `started` tells whether one of them was set. */
  ghost predicate ScannedBits(mask: nat, i: nat, started: bool)
  {
    if started then exists k :: 0 <= k < i && LowBits(mask, i) == Pow2(i) - Pow2(k) else LowBits(mask, i) == 0
  }

  /** The 32-step scan accepts exactly the netmasks. */
  method ValidateNetmaskV4(netmask: Address) returns (r: Result<()>)
    ensures r.Ok? <==> IsMaskV4(netmask)
  {
    if !netmask.V4? {
      return InvalidArgument;
    }
    var bits := PackOctets(netmask.octets);
    ghost var mask: nat := bits;
    var packed: nat := bits;
    var maskStarted := false;
    for i := 0 to 32
      invariant packed == Shr(mask, i)
      invariant ScannedBits(mask, i, maskStarted)
    {
      LowBitsStep(mask, i);
      var isSet := And(packed, 1);
      LastBit(packed);
      ScanStep(mask, i, maskStarted);
      if isSet == 0 {
        if maskStarted {
          GapInMask(netmask, i);
          return InvalidArgument;
        }
      } else {
        maskStarted := true;
      }
      packed := Shr(packed, 1);
    }
    WholeMask(netmask, maskStarted);
    if !maskStarted {
      return InvalidArgument;
    }
    r := Ok(());
  }

  lemma LastBit(x: nat)
    ensures And(x, 1) == x % 2 && Shr(x, 1) == x / 2
  {
    AndLowMask(x, 1);
    assert Pow2(1) == 2 && LowBits(x, 1) == x % 2;
  }

  lemma ScanStep(mask: nat, i: nat, started: bool)
    requires ScannedBits(mask, i, started)
    ensures Shr(mask, i) % 2 == 1 ==> ScannedBits(mask, i + 1, true)
    ensures Shr(mask, i) % 2 == 0 && !started ==> ScannedBits(mask, i + 1, false)
  {
    LowBitsStep(mask, i);
    if Shr(mask, i) % 2 == 1 {
      if started {
        var k :| 0 <= k < i && LowBits(mask, i) == Pow2(i) - Pow2(k);
        assert LowBits(mask, i + 1) == Pow2(i + 1) - Pow2(k);
      } else {
        assert LowBits(mask, i + 1) == Pow2(i + 1) - Pow2(i);
      }
    }
  }

  /** A clear bit above a set one: no prefix length gives such a word. */
  lemma GapInMask(netmask: Address, i: nat)
    requires netmask.V4? && i < 32
    requires ScannedBits(PackV4(netmask.octets), i, true) && Shr(PackV4(netmask.octets), i) % 2 == 0
    ensures !IsMaskV4(netmask)
  {
    hide PackV4, MakePackedMaskV4, HighMask, LowBits, Shr, Pow2;
    var mask := PackV4(netmask.octets);
    var k :| 0 <= k < i && LowBits(mask, i) == Pow2(i) - Pow2(k);
    forall n | 1 <= n <= 32
      ensures mask != MakePackedMaskV4(n)
    {
      MaskV4Value(n);
      NotHighMask(mask, i, k, 32 - n);
    }
  }

  lemma NotHighMask(mask: nat, i: nat, k: nat, j: nat)
    requires k < i < 32 && j <= 32 && LowBits(mask, i) == Pow2(i) - Pow2(k) && Shr(mask, i) % 2 == 0
    ensures mask != HighMask(32, j)
  {
    hide HighMask, LowBits, Shr, Pow2;
    HighMaskLowBits(32, j, i);
    HighMaskLowBits(32, j, i + 1);
    LowBitsStep(mask, i);
    Pow2Monotonic(k, i);
    Pow2Monotonic(i, i + 1);
  }

  lemma WholeMask(netmask: Address, started: bool)
    requires netmask.V4? && ScannedBits(PackV4(netmask.octets), 32, started)
    ensures IsMaskV4(netmask) <==> started
  {
    hide PackV4, MakePackedMaskV4, Pow2, LowBits;
    var mask := PackV4(netmask.octets);
    Pow2Values();
    LowBitsOfSmall(mask, 32);
    if started {
      var k :| 0 <= k < 32 && LowBits(mask, 32) == Pow2(32) - Pow2(k);
      MaskV4Value(32 - k);
      assert mask == MakePackedMaskV4(32 - k);
    } else {
      MasksAreNotZero();
    }
  }

  lemma MasksAreNotZero()
    ensures forall n :: 1 <= n <= 32 ==> MakePackedMaskV4(n) != 0
  {
    hide MakePackedMaskV4, Pow2;
    forall n | 1 <= n <= 32
      ensures MakePackedMaskV4(n) != 0
    {
      MaskV4Value(n);
      Pow2Monotonic(32 - n, 32);
    }
  }

  // ---- V6 ----

  function WordMask(length: nat): Word64
    requires length <= 64
  {
    if length < 64 then
      WordMaskInRange(length);
      Not(Shr(Not(0, 64), length), 64)
    else 0xFFFF_FFFF_FFFF_FFFF
  }

  lemma WordMaskInRange(length: nat)
    requires length <= 64
    ensures Shr(Not(0, 64), length) < Pow2(64)
    ensures Not(Shr(Not(0, 64), length), 64) == Pow2(64) - Pow2(64 - length) < 0x1_0000_0000_0000_0000
  {
    hide Pow2, Shr;
    Pow2Values();
    ShrOfOnes(length);
    if length > 0 { Pow2Monotonic(64 - length, 64); }
  }

  lemma {:induction false} ShrOfOnes(n: nat)
    requires n <= 64
    ensures Shr(Not(0, 64), n) == Pow2(64 - n) - 1
  {
    hide Pow2, Shr;
    ShrOfMask(64, n);
  }

  lemma {:induction false} ShrOfMask(w: nat, n: nat)
    requires n <= w
    ensures Shr(Pow2(w) - 1, n) == Pow2(w - n) - 1
  {
    if n > 0 {
      assert (Pow2(w) - 1) / 2 == Pow2(w - 1) - 1;
      ShrOfMask(w - 1, n - 1);
    }
  }

  lemma WordMaskValue(n: nat)
    requires n <= 64
    ensures WordMask(n) == HighMask(64, 64 - n)
  {
    hide Pow2, Shr, Not;
    Pow2Values();
    Pow2OfZero();
    WordMaskInRange(n);
  }

  /** The mask of a prefix; the program leaves longer prefixes undefined. */
  function PackedV6FromPrefixLength(length: nat): PackedV6
    requires length <= 128
  {
    if length == 64 then PackedV6(0xFFFF_FFFF_FFFF_FFFF, 0)
    else if length == 128 then PackedV6(0xFFFF_FFFF_FFFF_FFFF, 0xFFFF_FFFF_FFFF_FFFF)
    else if length < 64 then PackedV6(WordMask(length), 0)
    else PackedV6(0xFFFF_FFFF_FFFF_FFFF, WordMask(length - 64))
  }

  /** The number of set bits from bit `w - 1` down. */
  function LeadingOnes(x: nat, w: nat): (n: nat)
    ensures n <= w
  {
    if w == 0 || !Bit(x, w - 1) then 0 else 1 + LeadingOnes(x, w - 1)
  }

  method CountOnes(bits: Word64) returns (count: nat)
    ensures count == LeadingOnes(bits, 64)
  {
    count := 0;
    var i := 63;
    while i >= 0
      invariant -1 <= i <= 63 && count == 63 - i
      invariant LeadingOnes(bits, 64) == count + LeadingOnes(bits, i + 1)
    {
      if Bit(bits, i) {
        count := count + 1;
      } else {
        break;
      }
      i := i - 1;
    }
  }

  function PrefixLength(p: PackedV6): (n: nat)
    ensures n <= 128
  {
    if LeadingOnes(p.first, 64) == 64 then 64 + LeadingOnes(p.second, 64) else LeadingOnes(p.first, 64)
  }

  lemma {:induction false} LeadingOnesAre(x: nat, w: nat, i: nat)
    ensures var n := LeadingOnes(x, w);
      (w - n <= i < w ==> Bit(x, i)) && (n < w && i == w - 1 - n ==> !Bit(x, i))
  {
    hide Bit;
    if w > 0 && Bit(x, w - 1) && i != w - 1 {
      LeadingOnesAre(x, w - 1, i);
    }
  }

  /** For every pair of words, whether or not it is a mask: the prefix length is the number of bits that are
      set from the highest of the 128 down to the first that is not. */
  lemma PrefixLengthCounts(p: PackedV6, i: nat)
    requires i < 128
    ensures var n := PrefixLength(p);
      (128 - n <= i ==> Bit(PackedNumber(p), i)) && (n < 128 && i == 127 - n ==> !Bit(PackedNumber(p), i))
  {
    hide Bit, LeadingOnes, Pow2, Scale;
    Pow2Values();
    ScaleIsTimes(p.first, 64);
    BitInParts(p.first, p.second, 64, i);
    if i >= 64 {
      LeadingOnesAre(p.first, 64, i - 64);
    } else {
      LeadingOnesAre(p.second, 64, i);
    }
  }

  method PrefixLengthFromPackedV6(packed: PackedV6) returns (length: Octet)
    ensures length == PrefixLength(packed)
  {
    var firstPartCount := CountOnes(packed.first);
    var secondPartCount := CountOnes(packed.second);
    if firstPartCount == 64 {
      length := 64 + secondPartCount;
    } else {
      length := firstPartCount;
    }
  }

  lemma {:induction false} LeadingOnesOfMask(k: nat, w: nat)
    requires k <= 64 && w <= 64
    ensures LeadingOnes(HighMask(64, k), w) == if w <= k then 0 else w - k
  {
    hide Bit, HighMask;
    if w > 0 {
      HighMaskBits(64, k, w - 1);
      LeadingOnesOfMask(k, w - 1);
    }
  }

  lemma OnesOfWordMask(n: nat)
    requires n <= 64
    ensures LeadingOnes(WordMask(n), 64) == n
    ensures WordMask(0) == 0
  {
    WordMaskValue(n);
    WordMaskValue(0);
    LeadingOnesOfMask(64 - n, 64);
  }

  /** The prefix length of the mask made for a prefix is that prefix's length. */
  lemma PrefixOfMask(n: nat)
    requires n <= 128
    ensures PrefixLength(PackedV6FromPrefixLength(n)) == n
  {
    hide WordMask, LeadingOnes;
    OnesOfWordMask(64);
    OnesOfWordMask(0);
    OnesOfWordMask(if n <= 64 then n else n - 64);
    FullMask();
  }

  lemma FullMask()
    ensures WordMask(64) == 0xFFFF_FFFF_FFFF_FFFF
  {
  }

  predicate IsMaskV6(netmask: Address) {
    netmask.V6? && exists n :: 0 <= n <= 128 && PackV6(netmask.groups) == PackedV6FromPrefixLength(n)
  }

  /** A mask is accepted when it survives the conversion to a prefix length and back, which is so
      exactly for the masks of the 129 prefixes. */
  method ValidateNetmaskV6(netmask: Address) returns (r: Result<()>)
    ensures r.Ok? <==> IsMaskV6(netmask)
  {
    if !netmask.V6? {
      return InvalidArgument;
    }
    var packedMask := PackGroups(netmask.groups);
    var prefixLength := PrefixLengthFromPackedV6(packedMask);
    PrefixIsWitness(netmask);
    var packedMaskFromPrefix := PackedV6FromPrefixLength(prefixLength);
    if packedMask != packedMaskFromPrefix {
      return InvalidArgument;
    }
    r := Ok(());
  }

  lemma PrefixIsWitness(netmask: Address)
    requires netmask.V6?
    ensures var p := PackV6(netmask.groups);
      IsMaskV6(netmask) <==> p == PackedV6FromPrefixLength(PrefixLength(p))
  {
    hide PackV6, PackedV6FromPrefixLength, PrefixLength;
    if IsMaskV6(netmask) {
      var n :| 0 <= n <= 128 && PackV6(netmask.groups) == PackedV6FromPrefixLength(n);
      PrefixOfMask(n);
    }
  }
}
