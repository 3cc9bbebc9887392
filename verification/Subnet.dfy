/** `IPAddressInfo`: the subnet an address and a netmask describe. */
module Subnets {
  import opened Common
  import opened Words
  import opened Addresses
  import opened Netmasks
  import Digits

  datatype IPAddressInfo = IPAddressInfo(address: Address, netmask: Address)

  // ---- the program ----

  function CheckValidIPAddressInfo(info: IPAddressInfo): Result<()> {
    if TypeRank(info.address) != TypeRank(info.netmask) then InvalidArgument
    else match info.address
      case NoAddress => InvalidArgument
      case V4(_) => if IsMaskV4(info.netmask) then Ok(()) else InvalidArgument
      case V6(_) => if IsMaskV6(info.netmask) then Ok(()) else InvalidArgument
  }

  function GetNetworkBaseAddress(info: IPAddressInfo): Result<Address> {
    var _ :- CheckValidIPAddressInfo(info);
    BitAnd(info.address, info.netmask)
  }

  function GetBroadcastAddress(info: IPAddressInfo): Result<Address> {
    var _ :- CheckValidIPAddressInfo(info);
    match info.address
    case V4(octets) =>
      Pow2Values();
      OrBound(PackV4(octets), Not(PackV4(info.netmask.octets), 32), 32);
      Ok(V4(UnpackV4(Or(PackV4(octets), Not(PackV4(info.netmask.octets), 32)))))
    case _ => InvalidArgument
  }

  predicate IsInRange(rangeStart: Word32, rangeEnd: Word32, rangeMask: Word32, adrs: Word32, mask: Word32) {
    adrs >= rangeStart && adrs <= rangeEnd && mask >= rangeMask
  }

  function IsPrivateNetworkAddress(info: IPAddressInfo): Result<bool> {
    var _ :- CheckValidIPAddressInfo(info);
    match info.address
    case V4(octets) =>
      var adrs, mask := PackV4(octets), PackV4(info.netmask.octets);
      Ok(IsInRange(0x0A00_0000, 0x0AFF_FFFF, 0xFF00_0000, adrs, mask) ||
         IsInRange(0xAC10_0000, 0xAC1F_FFFF, 0xFFF0_0000, adrs, mask) ||
         IsInRange(0xC0A8_0000, 0xC0A8_FFFF, 0xFFFF_0000, adrs, mask))
    case _ => InvalidArgument
  }

  // ---- what it means ----

  /** The info is an address with a netmask of its type, for a prefix of `n` bits. */
  ghost predicate HasPrefix(info: IPAddressInfo, n: nat) {
    if info.address.V4? then
      info.netmask.V4? && 1 <= n <= 32 && PackV4(info.netmask.octets) == MakePackedMaskV4(n)
    else
      info.address.V6? && info.netmask.V6? && n <= 128 && PackV6(info.netmask.groups) == PackedV6FromPrefixLength(n)
  }

  /** The number of bits that are left to the hosts. */
  ghost function HostBits(info: IPAddressInfo, n: nat): nat
    requires HasPrefix(info, n)
  {
    if info.address.V4? then 32 - n else 128 - n
  }

  /** The operations throw exactly when the info has no prefix, or for V6 where they do not support it. */
  lemma ValidExactlyWithPrefix(info: IPAddressInfo)
    ensures CheckValidIPAddressInfo(info).Ok? <==> exists n :: HasPrefix(info, n)
    ensures GetNetworkBaseAddress(info).Ok? <==> exists n :: HasPrefix(info, n)
    ensures GetBroadcastAddress(info).Ok? <==> info.address.V4? && exists n :: HasPrefix(info, n)
    ensures IsPrivateNetworkAddress(info).Ok? <==> info.address.V4? && exists n :: HasPrefix(info, n)
  {
    hide PackV4, PackV6, MakePackedMaskV4, PackedV6FromPrefixLength, UnpackV4, UnpackV6, And, Or;
    if CheckValidIPAddressInfo(info).Ok? {
      if info.address.V4? {
        var n :| 1 <= n <= 32 && PackV4(info.netmask.octets) == MakePackedMaskV4(n);
        assert HasPrefix(info, n);
      } else {
        var n :| 0 <= n <= 128 && PackV6(info.netmask.groups) == PackedV6FromPrefixLength(n);
        assert HasPrefix(info, n);
      }
    }
  }

  /** The first and last numbers of the subnet of `x` with `k` host bits. */
  function First(x: nat, k: nat): int {
    x - LowBits(x, k)
  }

  function Last(x: nat, k: nat): int {
    x - LowBits(x, k) + Pow2(k) - 1
  }

  /** `First` rounds down to a multiple of the size of the subnet. */
  lemma FirstIsFloor(x: nat, k: nat)
    ensures First(x, k) == x / Pow2(k) * Pow2(k) && 0 <= First(x, k) <= x <= Last(x, k)
    ensures Last(x, k) == First(x, k) + Pow2(k) - 1
  {
    hide Pow2, LowBits;
    ShrIsQuotient(x, k);
  }

  /** Two numbers are in the same subnet exactly when one lies between the ends of the other's. */
  lemma SameFirst(x: nat, y: nat, k: nat)
    ensures First(x, k) == First(y, k) <==> First(x, k) <= y <= Last(x, k)
  {
    hide Pow2, LowBits;
    FirstIsFloor(x, k);
    FirstIsFloor(y, k);
    SameMultiple(x / Pow2(k), y / Pow2(k), y, Pow2(k));
  }

  lemma SameMultiple(q: int, p: int, y: int, size: int)
    requires size > 0 && p * size <= y < p * size + size
    ensures q * size == p * size <==> q * size <= y < q * size + size
  {
    if q * size <= y < q * size + size {
      assert size * (q - p) == q * size - p * size;
      SmallMultiple(size, q - p);
    }
  }

  lemma BaseV4(o: Octets, mask: Octets, n: nat)
    requires 1 <= n <= 32 && PackV4(mask) == MakePackedMaskV4(n)
    ensures BitAnd(V4(o), V4(mask)).Ok? && BitAnd(V4(o), V4(mask)).value.V4?
    ensures Number(BitAnd(V4(o), V4(mask)).value) == First(PackV4(o), 32 - n)
  {
    hide PackV4, UnpackV4, MakePackedMaskV4, And, Pow2, LowBits;
    MaskV4Value(n);
    Pow2Values();
    AndHighMask(PackV4(o), 32 - n, 32);
    ZeroAnd(PackV4(o));
    AndBound(PackV4(o), PackV4(mask));
    PackOfUnpackV4(And(PackV4(o), PackV4(mask)));
  }

  lemma ZeroAnd(x: nat)
    ensures And(x, 0) == 0
  {
  }

  // ---- masking 128 bits word by word ----

  lemma {:induction false} LowBitsAbove(x: nat, y: nat, j: nat, k: nat)
    requires y < Pow2(j)
    ensures LowBits(Scale(x, j) + y, j + k) == Scale(LowBits(x, k), j) + y
  {
    if j > 0 {
      LowBitsAbove(x, y / 2, j - 1, k);
      assert (Scale(x, j) + y) / 2 == Scale(x, j - 1) + y / 2 && (Scale(x, j) + y) % 2 == y % 2;
    }
  }

  lemma {:induction false} LowBitsBelow(x: nat, y: nat, j: nat, k: nat)
    requires k <= j
    ensures LowBits(Scale(x, j) + y, k) == LowBits(y, k)
  {
    if k > 0 {
      LowBitsBelow(x, y / 2, j - 1, k - 1);
      assert (Scale(x, j) + y) / 2 == Scale(x, j - 1) + y / 2 && (Scale(x, j) + y) % 2 == y % 2;
    }
  }

  lemma MaskWords(n: nat)
    requires n <= 128
    ensures PackedV6FromPrefixLength(n).first == HighMask(64, if n <= 64 then 64 - n else 0)
    ensures PackedV6FromPrefixLength(n).second == HighMask(64, if n <= 64 then 64 else 128 - n)
  {
    hide WordMask, HighMask;
    WordMaskValue(64);
    WordMaskValue(0);
    WordMaskValue(if n <= 64 then n else n - 64);
    OnesOfWordMask(0);
    FullMask();
  }

  lemma AndWord(x: Word64, k: nat)
    requires k <= 64
    ensures And(x, HighMask(64, k)) == x - LowBits(x, k)
  {
    hide Pow2, And, LowBits;
    Pow2Values();
    ZeroAnd(x);
    AndHighMask(x, k, 64);
  }

  lemma NumberOfParts(p: PackedV6, n: nat)
    requires n <= 128
    ensures LowBits(PackedNumber(p), 128 - n)
         == if n <= 64 then LowBits(p.first, 64 - n) * 0x1_0000_0000_0000_0000 + p.second
            else LowBits(p.second, 128 - n)
  {
    hide Pow2, LowBits, Scale;
    Pow2Values();
    ScaleIsTimes(p.first, 64);
    if n <= 64 {
      ScaleIsTimes(LowBits(p.first, 64 - n), 64);
      LowBitsAbove(p.first, p.second, 64, 64 - n);
    } else {
      LowBitsBelow(p.first, p.second, 64, 128 - n);
    }
  }

  lemma WordLowBits(x: Word64)
    ensures LowBits(x, 0) == 0 && LowBits(x, 64) == x
  {
    hide Pow2;
    Pow2Values();
    LowBitsOfSmall(x, 64);
  }

  lemma BaseV6(g: Groups, mask: Groups, n: nat)
    requires n <= 128 && PackV6(mask) == PackedV6FromPrefixLength(n)
    ensures BitAnd(V6(g), V6(mask)).Ok? && BitAnd(V6(g), V6(mask)).value.V6?
    ensures Number(BitAnd(V6(g), V6(mask)).value) == First(PackedNumber(PackV6(g)), 128 - n)
  {
    hide PackV6, UnpackV6, PackedV6FromPrefixLength, And, LowBits, HighMask;
    var p, m := PackV6(g), PackV6(mask);
    MaskWords(n);
    WordLowBits(p.first);
    WordLowBits(p.second);
    AndWord(p.first, if n <= 64 then 64 - n else 0);
    AndWord(p.second, if n <= 64 then 64 else 128 - n);
    NumberOfParts(p, n);
    PackOfUnpackV6(PackedV6(And(p.first, m.first), And(p.second, m.second)));
  }

  lemma BroadcastV4(o: Octets, mask: Octets, n: nat)
    requires 1 <= n <= 32 && PackV4(mask) == MakePackedMaskV4(n)
    ensures PackV4(mask) < Pow2(32) && Or(PackV4(o), Not(PackV4(mask), 32)) < 0x1_0000_0000
    ensures PackV4(UnpackV4(Or(PackV4(o), Not(PackV4(mask), 32)))) == Last(PackV4(o), 32 - n)
  {
    hide PackV4, UnpackV4, MakePackedMaskV4, Or, Pow2, LowBits;
    MaskV4Value(n);
    Pow2Values();
    Pow2Monotonic(32 - n, 32);
    OrLowMask(PackV4(o), 32 - n);
    OrBound(PackV4(o), Not(PackV4(mask), 32), 32);
    PackOfUnpackV4(Or(PackV4(o), Not(PackV4(mask), 32)));
  }

  // ---- main results ----

  /** The base address is the address rounded down to a multiple of the subnet size, for V4 and V6. */
  lemma BaseIsFloor(info: IPAddressInfo, n: nat)
    requires HasPrefix(info, n)
    ensures GetNetworkBaseAddress(info).Ok?
    ensures var base, size := GetNetworkBaseAddress(info).value, Pow2(HostBits(info, n));
      SameType(base, info.address) && Number(base) == Number(info.address) / size * size
  {
    hide BitAnd, Number, First, Pow2, MakePackedMaskV4, PackedV6FromPrefixLength, PackV4, PackV6;
    ValidExactlyWithPrefix(info);
    NumbersOf(info);
    if info.address.V4? {
      BaseV4(info.address.octets, info.netmask.octets, n);
      FirstIsFloor(PackV4(info.address.octets), 32 - n);
    } else {
      BaseV6(info.address.groups, info.netmask.groups, n);
      FirstIsFloor(PackedNumber(PackV6(info.address.groups)), 128 - n);
    }
  }

  lemma NumbersOf(info: IPAddressInfo)
    ensures info.address.V4? ==> Number(info.address) == PackV4(info.address.octets)
    ensures info.address.V6? ==> Number(info.address) == PackedNumber(PackV6(info.address.groups))
  {
  }

  /** The base address of the base address is itself. */
  lemma BaseIsIdempotent(info: IPAddressInfo, n: nat)
    requires HasPrefix(info, n)
    ensures GetNetworkBaseAddress(info).Ok?
    ensures var base := GetNetworkBaseAddress(info).value;
      GetNetworkBaseAddress(info.(address := base)) == Ok(base)
  {
    hide GetNetworkBaseAddress, Number, Pow2, MakePackedMaskV4, PackedV6FromPrefixLength;
    BaseIsFloor(info, n);
    var base := GetNetworkBaseAddress(info).value;
    var again := info.(address := base);
    BaseIsFloor(again, n);
    var size := Pow2(HostBits(info, n));
    QuotientIs(Number(base), size, Number(info.address) / size, 0);
    NumberIsInjective(GetNetworkBaseAddress(again).value, base);
  }

  /** The broadcast address is the last number of the subnet. */
  lemma BroadcastIsLast(info: IPAddressInfo, n: nat)
    requires HasPrefix(info, n) && info.address.V4?
    ensures GetNetworkBaseAddress(info).Ok? && GetBroadcastAddress(info).Ok? && GetBroadcastAddress(info).value.V4?
    ensures Number(GetBroadcastAddress(info).value) == Number(GetNetworkBaseAddress(info).value) + Pow2(32 - n) - 1
  {
    hide BitAnd, PackV4, UnpackV4, Or, First, Last, Pow2, MakePackedMaskV4;
    ValidExactlyWithPrefix(info);
    var o := info.address.octets;
    BaseV4(o, info.netmask.octets, n);
    BroadcastV4(o, info.netmask.octets, n);
    FirstIsFloor(PackV4(o), 32 - n);
  }

  /** Another V4 address is in the same subnet exactly when it lies between base and broadcast. */
  lemma SubnetIsInterval(info: IPAddressInfo, n: nat, x: Octets)
    requires HasPrefix(info, n) && info.address.V4?
    ensures GetNetworkBaseAddress(info).Ok? && GetBroadcastAddress(info).Ok?
    ensures GetNetworkBaseAddress(info.(address := V4(x))) == GetNetworkBaseAddress(info)
      <==> Number(GetNetworkBaseAddress(info).value) <= Number(V4(x)) <= Number(GetBroadcastAddress(info).value)
  {
    hide GetBroadcastAddress, BitAnd, PackV4, First, Last, Pow2, MakePackedMaskV4;
    var o, other := info.address.octets, info.(address := V4(x));
    ValidExactlyWithPrefix(info);
    ValidExactlyWithPrefix(other);
    assert HasPrefix(other, n);
    BaseV4(o, info.netmask.octets, n);
    BaseV4(x, info.netmask.octets, n);
    BroadcastIsLast(info, n);
    FirstIsFloor(PackV4(o), 32 - n);
    SameFirst(PackV4(o), PackV4(x), 32 - n);
    var base, otherBase := GetNetworkBaseAddress(info).value, GetNetworkBaseAddress(other).value;
    if Number(base) == Number(otherBase) {
      NumberIsInjective(base, otherBase);
    }
  }

  /** The same for V6, where there is no broadcast address: the subnet has `2^(128 - n)` addresses. */
  lemma SubnetIsIntervalV6(info: IPAddressInfo, n: nat, x: Groups)
    requires HasPrefix(info, n) && info.address.V6?
    ensures GetNetworkBaseAddress(info).Ok?
    ensures var base := Number(GetNetworkBaseAddress(info).value);
      GetNetworkBaseAddress(info.(address := V6(x))) == GetNetworkBaseAddress(info)
      <==> base <= Number(V6(x)) < base + Pow2(128 - n)
  {
    hide BitAnd, PackV6, PackedNumber, First, Last, Pow2, PackedV6FromPrefixLength;
    var g, other := info.address.groups, info.(address := V6(x));
    ValidExactlyWithPrefix(info);
    ValidExactlyWithPrefix(other);
    assert HasPrefix(other, n);
    BaseV6(g, info.netmask.groups, n);
    BaseV6(x, info.netmask.groups, n);
    FirstIsFloor(PackedNumber(PackV6(g)), 128 - n);
    SameFirst(PackedNumber(PackV6(g)), PackedNumber(PackV6(x)), 128 - n);
    var base, otherBase := GetNetworkBaseAddress(info).value, GetNetworkBaseAddress(other).value;
    if Number(base) == Number(otherBase) {
      NumberIsInjective(base, otherBase);
    }
  }

  // ---- private networks ----

  /** The blocks of section 3 of RFC 1918, each with the length of its prefix. */
  datatype Block = Block(first: nat, last: nat, prefix: nat)

  const PRIVATE_BLOCKS: seq<Block> := [
    Block(0x0A00_0000, 0x0AFF_FFFF, 8), Block(0xAC10_0000, 0xAC1F_FFFF, 12), Block(0xC0A8_0000, 0xC0A8_FFFF, 16)]

  ghost predicate Inside(block: Block, base: nat, broadcast: nat) {
    block.first <= base && broadcast <= block.last
  }

  /** The private test holds exactly when the whole subnet, from base to broadcast, lies inside one of
      the three private blocks. */
  lemma PrivateIsContainment(info: IPAddressInfo, n: nat)
    requires HasPrefix(info, n) && info.address.V4?
    ensures IsPrivateNetworkAddress(info).Ok? && GetNetworkBaseAddress(info).Ok? && GetBroadcastAddress(info).Ok?
    ensures IsPrivateNetworkAddress(info).value
      <==> exists block :: block in PRIVATE_BLOCKS &&
             Inside(block, Number(GetNetworkBaseAddress(info).value), Number(GetBroadcastAddress(info).value))
  {
    hide BitAnd, GetBroadcastAddress, PackV4, First, Last, Pow2, MakePackedMaskV4;
    ValidExactlyWithPrefix(info);
    var o, mask := info.address.octets, info.netmask.octets;
    BaseV4(o, mask, n);
    BroadcastIsLast(info, n);
    FirstIsFloor(PackV4(o), 32 - n);
    BlockTest(0x0A, 8, n, PackV4(o), PackV4(mask));
    BlockTest(0xAC1, 12, n, PackV4(o), PackV4(mask));
    BlockTest(0xC0A8, 16, n, PackV4(o), PackV4(mask));
    Pow2Values();
    var base, broadcast := Number(GetNetworkBaseAddress(info).value), Number(GetBroadcastAddress(info).value);
    assert PRIVATE_BLOCKS[0] in PRIVATE_BLOCKS;
    assert PRIVATE_BLOCKS[1] in PRIVATE_BLOCKS;
    assert PRIVATE_BLOCKS[2] in PRIVATE_BLOCKS;
    assert forall block :: block in PRIVATE_BLOCKS ==>
      block == PRIVATE_BLOCKS[0] || block == PRIVATE_BLOCKS[1] || block == PRIVATE_BLOCKS[2];
  }

  /** The test for one block: the address in range and the mask at least as long as the block's. */
  lemma BlockTest(top: nat, prefix: nat, n: nat, x: nat, mask: nat)
    requires 1 <= n <= 32 && 1 <= prefix <= 16 && mask == MakePackedMaskV4(n)
    ensures var first, size := top * Pow2(32 - prefix), Pow2(32 - prefix);
      first <= x < first + size && mask >= 0x1_0000_0000 - size
      <==> first <= First(x, 32 - n) && Last(x, 32 - n) < first + size
  {
    hide MakePackedMaskV4, First, Last, Pow2, HighMask;
    MaskV4Value(n);
    MaskOrder(n, prefix);
    var b, k := 32 - prefix, 32 - n;
    if n >= prefix {
      Pow2Sum(b - k, k);
      TimesProduct(top, Pow2(b - k), Pow2(k));
      SmallSubnet(top * Pow2(b - k), Pow2(b - k), k, x);
    } else {
      FirstIsFloor(x, k);
      Pow2Monotonic(b, k);
    }
  }

  /** A subnet no larger than the block is inside as a whole or not at all. */
  lemma SmallSubnet(start: nat, count: nat, k: nat, x: nat)
    ensures var first, size := start * Pow2(k), count * Pow2(k);
      first <= x < first + size <==> first <= First(x, k) && Last(x, k) < first + size
  {
    hide First, Last, Pow2;
    FirstIsFloor(x, k);
    NestedBlocks(start, count, x / Pow2(k), Pow2(k), x);
  }

  lemma MaskOrder(n: nat, prefix: nat)
    requires 1 <= n <= 32 && 1 <= prefix <= 16
    ensures HighMask(32, 32 - n) >= 0x1_0000_0000 - Pow2(32 - prefix) <==> n >= prefix
  {
    hide Pow2;
    Pow2Values();
    if n < prefix {
      Pow2Monotonic(32 - prefix, 32 - n);
    } else if n > prefix {
      Pow2Monotonic(32 - n, 32 - prefix);
    }
  }

  lemma TimesProduct(a: int, b: int, c: int)
    ensures a * (b * c) == a * b * c
  {
  }

  /** A block of `count` subnets contains a whole subnet or none of its numbers. */
  lemma NestedBlocks(start: nat, count: nat, q: nat, size: nat, x: nat)
    requires size > 0 && q * size <= x < q * size + size
    ensures start * size <= x < start * size + count * size
      <==> start * size <= q * size && q * size + size <= start * size + count * size
  {
    InOrder(start, q, size);
    InOrder(q, start + count, size);
    assert (start + count) * size == start * size + count * size;
  }

  lemma InOrder(a: nat, b: nat, size: nat)
    ensures a <= b ==> a * size <= b * size
    ensures a < b ==> a * size + size <= b * size
    ensures b < a ==> b * size + size <= a * size
  {
    if a < b {
      Digits.ProductGrows(a, b, size);
    } else if b < a {
      Digits.ProductGrows(b, a, size);
    }
  }

  // ---- the order of address infos ----

  function InfoLess(a: IPAddressInfo, b: IPAddressInfo): Result<bool> {
    if !Equal(a.address, b.address) then Less(a.address, b.address) else Less(a.netmask, b.netmask)
  }

  function InfoLessOrEqual(a: IPAddressInfo, b: IPAddressInfo): Result<bool> {
    if !Equal(a.address, b.address) then Less(a.address, b.address) else LessOrEqual(a.netmask, b.netmask)
  }

  /** Different addresses are always comparable, even if one is no address. */
  lemma OrderWithNone(a: Address, b: Address, c: Address)
    ensures a != b ==> Less(a, b).Ok? && (Less(a, b) == Ok(true) <==> Less(b, a) == Ok(false))
    ensures a != b && b != c && Less(a, b) == Ok(true) && Less(b, c) == Ok(true) ==> a != c && Less(a, c) == Ok(true)
    ensures Less(a, a) == if a.NoAddress? then InvalidArgument else Ok(false)
    ensures LessOrEqual(a, a) == if a.NoAddress? then InvalidArgument else Ok(true)
    ensures a != b ==> LessOrEqual(a, b) == Less(a, b)
  {
    if !a.NoAddress? && !b.NoAddress? {
      OrderIsStrictAndTotal(a, b, b);
      OrderIsStrictAndTotal(b, a, a);
      OrderIsNumeric(a, b);
      OrderIsNumeric(b, a);
      if !c.NoAddress? {
        OrderIsStrictAndTotal(a, b, c);
        OrderIsStrictAndTotal(c, b, a);
      }
    }
    if !a.NoAddress? {
      OrderIsStrictAndTotal(a, a, a);
    }
  }

  /** Comparing throws exactly on equal addresses of which neither has a netmask; where it does not, `<`
      is a strict total order and `<=` is its reflexive closure. */
  lemma InfoOrder(a: IPAddressInfo, b: IPAddressInfo, c: IPAddressInfo)
    ensures InfoLess(a, b).Ok? <==> !(a.address == b.address && a.netmask.NoAddress? && b.netmask.NoAddress?)
    ensures InfoLessOrEqual(a, b).Ok? <==> InfoLess(a, b).Ok?
    ensures InfoLess(a, a) != Ok(true)
    ensures InfoLess(a, b) == Ok(true) && InfoLess(b, c) == Ok(true) ==> InfoLess(a, c) == Ok(true)
    ensures InfoLess(a, b).Ok? && a != b ==> (InfoLess(a, b) == Ok(true) <==> InfoLess(b, a) == Ok(false))
    ensures InfoLess(a, b).Ok? ==> (InfoLessOrEqual(a, b) == Ok(true) <==> InfoLess(a, b) == Ok(true) || a == b)
  {
    hide Less, LessOrEqual;
    OrderWithNone(a.address, b.address, c.address);
    OrderWithNone(b.address, c.address, a.address);
    OrderWithNone(a.netmask, b.netmask, c.netmask);
    OrderWithNone(b.netmask, c.netmask, a.netmask);
    OrderWithNone(a.netmask, a.netmask, a.netmask);
  }

  /** Among infos of one type the order is that of the addresses, and for one address that of the netmasks. */
  lemma InfoOrderIsNumeric(a: IPAddressInfo, b: IPAddressInfo)
    requires !a.address.NoAddress? && !a.netmask.NoAddress?
    requires SameType(a.address, b.address) && SameType(a.netmask, b.netmask)
    ensures var x, y := Number(a.address), Number(b.address);
      InfoLess(a, b) == Ok(x < y || (x == y && Number(a.netmask) < Number(b.netmask))) &&
      InfoLessOrEqual(a, b) == Ok(x < y || (x == y && Number(a.netmask) <= Number(b.netmask)))
  {
    hide Less, LessOrEqual, Number;
    OrderIsNumeric(a.address, b.address);
    OrderIsNumeric(a.netmask, b.netmask);
    if Number(a.address) == Number(b.address) {
      NumberIsInjective(a.address, b.address);
    }
    NoAddressIsFirst(a.address, b.address);
  }
}
