/** The value of an `IPAddress`: its packed forms, arithmetic, masks, order and the embedding of
    V4 addresses into V6 ones. */
module Addresses {
  import opened Common
  import opened Words
  import Digits

  type Octets = s: seq<nat> | |s| == 4 && forall i :: 0 <= i < 4 ==> s[i] < 0x100
    witness [0, 0, 0, 0]
  type Groups = s: seq<nat> | |s| == 8 && forall i :: 0 <= i < 8 ==> s[i] < 0x1_0000
    witness [0, 0, 0, 0, 0, 0, 0, 0]

  datatype Address = NoAddress | V4(octets: Octets) | V6(groups: Groups)

  /** The two halves of a V6 address, most significant first. */
  datatype PackedV6 = PackedV6(first: Word64, second: Word64)


  // ---- packing, and the number an address stands for ----

  lemma Powers()
    ensures Digits.Power(0x100, 4) == 0x1_0000_0000
    ensures Digits.Power(0x1_0000, 4) == 0x1_0000_0000_0000_0000
  {
  }

  function PackV4(o: Octets): Word32 {
    Powers();
    Digits.ValueBound(o, 0x100);
    Digits.Value(o, 0x100)
  }

  function UnpackV4(p: Word32): Octets {
    Digits.DigitsOf(p, 0x100, 4)
  }

  /** Four groups side by side in one word. */
  function PackWord(g: seq<nat>): Word64
    requires |g| == 4 && Digits.InBase(g, 0x1_0000)
  {
    Powers();
    Digits.ValueBound(g, 0x1_0000);
    Digits.Value(g, 0x1_0000)
  }

  function PackV6(g: Groups): PackedV6 {
    PackedV6(PackWord(g[..4]), PackWord(g[4..]))
  }

  function UnpackV6(p: PackedV6): Groups {
    Digits.DigitsOf(p.first, 0x1_0000, 4) + Digits.DigitsOf(p.second, 0x1_0000, 4)
  }

  function PackedNumber(p: PackedV6): nat {
    p.first * 0x1_0000_0000_0000_0000 + p.second
  }

  function Number(a: Address): nat {
    match a
    case NoAddress => 0
    case V4(octets) => PackV4(octets)
    case V6(groups) => PackedNumber(PackV6(groups))
  }

  predicate SameType(a: Address, b: Address) {
    a.V4? == b.V4? && a.V6? == b.V6?
  }

  /** The number of addresses of the type of `a`. */
  function Size(a: Address): nat {
    if a.V6? then 0x1_0000_0000_0000_0000_0000_0000_0000_0000 else 0x1_0000_0000
  }

  /** `n` modulo the size of the address space of `a`. */
  function Wrap(a: Address, n: int): nat {
    if a.V6? then n % 0x1_0000_0000_0000_0000_0000_0000_0000_0000 else n % 0x1_0000_0000
  }

  /** Packing and unpacking undo each other. */
  lemma UnpackOfPackV4(o: Octets)
    ensures UnpackV4(PackV4(o)) == o
  {
    Digits.DigitsOfValue(o, 0x100);
  }

  lemma PackOfUnpackV4(p: Word32)
    ensures PackV4(UnpackV4(p)) == p
  {
    Powers();
    Digits.ValueOfDigits(p, 0x100, 4);
  }

  lemma UnpackOfPackV6(g: Groups)
    ensures UnpackV6(PackV6(g)) == g
  {
    Digits.DigitsOfValue(g[..4], 0x1_0000);
    Digits.DigitsOfValue(g[4..], 0x1_0000);
  }

  lemma PackOfUnpackV6(p: PackedV6)
    ensures PackV6(UnpackV6(p)) == p
  {
    Powers();
    Digits.ValueOfDigits(p.first, 0x1_0000, 4);
    Digits.ValueOfDigits(p.second, 0x1_0000, 4);
    assert UnpackV6(p)[..4] == Digits.DigitsOf(p.first, 0x1_0000, 4);
    assert UnpackV6(p)[4..] == Digits.DigitsOf(p.second, 0x1_0000, 4);
  }

  lemma NumberBound(a: Address)
    ensures Number(a) < Size(a)
  {
  }

  /** An address is determined by its type and number. */
  lemma NumberIsInjective(a: Address, b: Address)
    requires SameType(a, b) && Number(a) == Number(b)
    ensures a == b
  {
    if a.V4? {
      V4IsInjective(a.octets, b.octets);
    } else if a.V6? {
      V6IsInjective(a.groups, b.groups);
    }
  }

  lemma V4IsInjective(o: Octets, p: Octets)
    requires PackV4(o) == PackV4(p)
    ensures o == p
  {
    UnpackOfPackV4(o);
    UnpackOfPackV4(p);
  }

  lemma V6IsInjective(g: Groups, h: Groups)
    requires PackedNumber(PackV6(g)) == PackedNumber(PackV6(h))
    ensures g == h
  {
    HalvesOfNumber(PackV6(g), PackV6(h));
    assert g == UnpackV6(PackV6(g)) by { UnpackOfPackV6(g); }
    assert h == UnpackV6(PackV6(h)) by { UnpackOfPackV6(h); }
  }

  lemma HalvesOfNumber(p: PackedV6, q: PackedV6)
    requires PackedNumber(p) == PackedNumber(q)
    ensures p == q
  {
  }

  /** Cutting a V6 address in two words does not change its positional value. */
  lemma {:induction false} GroupsValue(g: Groups)
    ensures Number(V6(g)) == Digits.Value(g, 0x1_0000)
  {
    Powers();
    Digits.ValueOfConcatenation(g[..4], g[4..], 0x1_0000);
    assert g == g[..4] + g[4..];
  }

  // ---- the same packing, as the program does it on words ----

  lemma ScaleBy8And16(x: nat)
    ensures Scale(x, 8) == x * 0x100 && Scale(x, 16) == x * 0x1_0000
  {
    Pow2Values();
    ScaleIsTimes(x, 8);
    ScaleIsTimes(x, 16);
  }

  lemma ShiftBy8And16(x: nat)
    ensures Shr(x, 8) == x / 0x100 && And(x, 0xFF) == x % 0x100
    ensures Shr(x, 16) == x / 0x1_0000 && And(x, 0xFFFF) == x % 0x1_0000
  {
    Pow2Values();
    ShrIsQuotient(x, 8);
    ShrIsQuotient(x, 16);
    AndLowMask(x, 8);
    AndLowMask(x, 16);
  }

  lemma {:induction false} ValueOfFour(d: seq<nat>, base: nat)
    requires |d| == 4
    ensures Digits.Value(d, base) == ((d[0] * base + d[1]) * base + d[2]) * base + d[3]
  {
    assert d[..3][..2] == d[..2] && d[..2][..1] == d[..1] && d[..1][..0] == [];
    assert Digits.Value(d[..1], base) == d[0];
    assert Digits.Value(d[..2], base) == d[0] * base + d[1];
  }

  /** Four fields or-ed into place are the digits of one number. */
  lemma FieldsAreDigits(d: seq<nat>)
    requires |d| == 4
    ensures Digits.Value(d, 0x100) == Four(d[0], d[1], d[2], d[3], 8)
    ensures Digits.Value(d, 0x1_0000) == Four(d[0], d[1], d[2], d[3], 16)
  {
    FourIs8(d[0], d[1], d[2], d[3]);
    FourIs16(d[0], d[1], d[2], d[3]);
    ValueOfFour(d, 0x100);
    ValueOfFour(d, 0x1_0000);
  }

  lemma FourIs8(a: nat, b: nat, c: nat, d: nat)
    ensures Four(a, b, c, d, 8) == ((a * 0x100 + b) * 0x100 + c) * 0x100 + d
  {
    ScaleBy8And16(a);
    ScaleBy8And16(a * 0x100 + b);
    ScaleBy8And16((a * 0x100 + b) * 0x100 + c);
  }

  lemma FourIs16(a: nat, b: nat, c: nat, d: nat)
    ensures Four(a, b, c, d, 16) == ((a * 0x1_0000 + b) * 0x1_0000 + c) * 0x1_0000 + d
  {
    ScaleBy8And16(a);
    ScaleBy8And16(a * 0x1_0000 + b);
    ScaleBy8And16((a * 0x1_0000 + b) * 0x1_0000 + c);
  }

  lemma {:induction false} FourDigitsOf(x: nat, base: nat)
    requires base > 0
    ensures Digits.DigitsOf(x, base, 4)
         == [x / base / base / base % base, x / base / base % base, x / base % base, x % base]
  {
    assert Digits.DigitsOf(x / base / base / base, base, 1) == [x / base / base / base % base];
    assert Digits.DigitsOf(x / base / base, base, 2) == [x / base / base / base % base, x / base / base % base];
  }

  lemma ShiftsAreDivisions(x: nat)
    ensures Shr(x, 16) == x / 0x100 / 0x100 && Shr(x, 24) == x / 0x100 / 0x100 / 0x100
    ensures Shr(x, 32) == x / 0x1_0000 / 0x1_0000 && Shr(x, 48) == x / 0x1_0000 / 0x1_0000 / 0x1_0000
  {
    ShrSum(x, 8, 8);
    ShrSum(x, 16, 8);
    ShrSum(x, 16, 16);
    ShrSum(x, 32, 16);
    ShiftBy8And16(x);
    ShiftBy8And16(Shr(x, 8));
    ShiftBy8And16(Shr(x, 16));
    ShiftBy8And16(Shr(x, 32));
  }

  method PackOctets(ipv4: Octets) returns (ip: Word32)
    ensures ip == PackV4(ipv4)
  {
    Pow2Values();
    ShlIsScale(ipv4[0], 8, 24, 32);
    ShlIsScale(ipv4[1], 8, 16, 32);
    ShlIsScale(ipv4[2], 8, 8, 32);
    OrOfFields(ipv4[0], ipv4[1], ipv4[2], ipv4[3], 8);
    FieldsAreDigits(ipv4);
    var bits: nat := 0;
    bits := Or(bits, Shl(ipv4[0], 24, 32));
    bits := Or(bits, Shl(ipv4[1], 16, 32));
    bits := Or(bits, Shl(ipv4[2], 8, 32));
    bits := Or(bits, ipv4[3]);
    assert bits == PackV4(ipv4);
    ip := bits;
  }

  method UnpackOctets(ipv4: Word32) returns (ip: Octets)
    ensures ip == UnpackV4(ipv4)
  {
    FourDigitsOf(ipv4, 0x100);
    ShiftsAreDivisions(ipv4);
    ShiftBy8And16(ipv4);
    ShiftBy8And16(Shr(ipv4, 8));
    ShiftBy8And16(Shr(ipv4, 16));
    ShiftBy8And16(Shr(ipv4, 24));
    var octets := [And(Shr(ipv4, 24), 0xFF), And(Shr(ipv4, 16), 0xFF), And(Shr(ipv4, 8), 0xFF), And(ipv4, 0xFF)];
    assert octets == UnpackV4(ipv4);
    ip := octets;
  }

  method PackFour(g: seq<nat>) returns (w: Word64)
    requires |g| == 4 && Digits.InBase(g, 0x1_0000)
    ensures w == PackWord(g)
  {
    Pow2Values();
    ShlIsScale(g[0], 16, 48, 64);
    ShlIsScale(g[1], 16, 32, 64);
    ShlIsScale(g[2], 16, 16, 64);
    OrOfFields(g[0], g[1], g[2], g[3], 16);
    FieldsAreDigits(g);
    var bits := Or(Or(Or(Shl(g[0], 48, 64), Shl(g[1], 32, 64)), Shl(g[2], 16, 64)), g[3]);
    assert bits == PackWord(g);
    w := bits;
  }

  method PackGroups(ipv6: Groups) returns (ip: PackedV6)
    ensures ip == PackV6(ipv6)
  {
    var first := PackFour(ipv6[..4]);
    var second := PackFour(ipv6[4..]);
    ip := PackedV6(first, second);
  }

  method UnpackFour(w: Word64) returns (g: seq<nat>)
    ensures g == Digits.DigitsOf(w, 0x1_0000, 4)
  {
    FourDigitsOf(w, 0x1_0000);
    ShiftsAreDivisions(w);
    ShiftBy8And16(w);
    ShiftBy8And16(Shr(w, 16));
    ShiftBy8And16(Shr(w, 32));
    ShiftBy8And16(Shr(w, 48));
    g := [And(Shr(w, 48), 0xFFFF), And(Shr(w, 32), 0xFFFF), And(Shr(w, 16), 0xFFFF), And(w, 0xFFFF)];
  }

  method UnpackGroups(ipv6: PackedV6) returns (ip: Groups)
    ensures ip == UnpackV6(ipv6)
  {
    var high := UnpackFour(ipv6.first);
    var low := UnpackFour(ipv6.second);
    ip := high + low;
  }

  // ---- getters ----

  function GetPackedV4(a: Address): Result<Word32> {
    if a.V4? then Ok(PackV4(a.octets)) else InvalidArgument
  }

  function GetPackedV6(a: Address): Result<PackedV6> {
    if a.V6? then Ok(PackV6(a.groups)) else InvalidArgument
  }

  // ---- addition and subtraction ----

  /** 32-bit arithmetic wraps around. */
  function AddWord(p: Word32, value: Word32): Word32 {
    (p + value) % 0x1_0000_0000
  }

  function SubtractWord(p: Word32, value: Word32): Word32 {
    (p - value) % 0x1_0000_0000
  }

  function AddPacked(v: PackedV6, value: Word32): PackedV6 {
    if 0xFFFF_FFFF_FFFF_FFFF - v.second < value then
      var carry := value - (0xFFFF_FFFF_FFFF_FFFF - v.second);
      if 0xFFFF_FFFF_FFFF_FFFF - v.first < carry then
        PackedV6(0, carry - (0xFFFF_FFFF_FFFF_FFFF - v.first) - 1)
      else
        PackedV6(v.first + carry, 0)
    else
      PackedV6(v.first, v.second + value)
  }

  function SubtractPacked(v: PackedV6, value: Word32): PackedV6 {
    if v.second < value then
      var borrow := value - v.second;
      if v.first < borrow then
        PackedV6(0xFFFF_FFFF_FFFF_FFFF, 0xFFFF_FFFF_FFFF_FFFF - (borrow - v.first - 1))
      else
        PackedV6(v.first - borrow, 0xFFFF_FFFF_FFFF_FFFF)
    else
      PackedV6(v.first, v.second - value)
  }

  function Add(a: Address, value: Word32): Result<Address> {
    match a
    case NoAddress => InvalidArgument
    case V4(octets) => Ok(V4(UnpackV4(AddWord(PackV4(octets), value))))
    case V6(groups) => Ok(V6(UnpackV6(AddPacked(PackV6(groups), value))))
  }

  function Subtract(a: Address, value: Word32): Result<Address> {
    match a
    case NoAddress => InvalidArgument
    case V4(octets) => Ok(V4(UnpackV4(SubtractWord(PackV4(octets), value))))
    case V6(groups) => Ok(V6(UnpackV6(SubtractPacked(PackV6(groups), value))))
  }

  /** V6 addition carries the whole overflow into the high word, so it is the sum modulo 2^128
      exactly when the low word overflows by at most one or the high word is all ones. */
  lemma AddPackedIsExact(v: PackedV6, value: Word32)
    ensures PackedNumber(AddPacked(v, value))
         == (PackedNumber(v) + value) % 0x1_0000_0000_0000_0000_0000_0000_0000_0000
      <==> v.second + value <= 0x1_0000_0000_0000_0000 || v.first == 0xFFFF_FFFF_FFFF_FFFF
  {
    var sum := PackedNumber(v) + value;
    if sum < 0x1_0000_0000_0000_0000_0000_0000_0000_0000 {
      QuotientIs(sum, 0x1_0000_0000_0000_0000_0000_0000_0000_0000, 0, sum);
    } else {
      QuotientIs(sum, 0x1_0000_0000_0000_0000_0000_0000_0000_0000, 1,
                 sum - 0x1_0000_0000_0000_0000_0000_0000_0000_0000);
    }
  }

  /** V6 subtraction is exact when the low word underflows by at most one or the high word is zero. */
  lemma SubtractPackedIsExact(v: PackedV6, value: Word32)
    ensures PackedNumber(SubtractPacked(v, value))
         == (PackedNumber(v) - value) % 0x1_0000_0000_0000_0000_0000_0000_0000_0000
      <==> value <= v.second + 1 || v.first == 0
  {
    var difference := PackedNumber(v) - value;
    if difference >= 0 {
      QuotientIs(difference, 0x1_0000_0000_0000_0000_0000_0000_0000_0000, 0, difference);
    } else {
      QuotientIs(difference, 0x1_0000_0000_0000_0000_0000_0000_0000_0000, -1,
                 difference + 0x1_0000_0000_0000_0000_0000_0000_0000_0000);
    }
  }

  /** The values for which V6 addition, respectively subtraction, is exact. */
  predicate AddInRange(a: Address, value: Word32) {
    a.V6? ==>
      var v := PackV6(a.groups); v.second + value <= 0x1_0000_0000_0000_0000 || v.first == 0xFFFF_FFFF_FFFF_FFFF
  }

  predicate SubtractInRange(a: Address, value: Word32) {
    a.V6? ==> value <= PackV6(a.groups).second + 1 || PackV6(a.groups).first == 0
  }

  /** Every address: V4 arithmetic is modulo 2^32, V6 arithmetic is modulo 2^128 exactly in range. */
  lemma AddIsExact(a: Address, value: Word32)
    requires !a.NoAddress?
    ensures Add(a, value).Ok? && SameType(Add(a, value).value, a)
    ensures Number(Add(a, value).value) == Wrap(a, Number(a) + value) <==> AddInRange(a, value)
  {
    if a.V6? {
      AddPackedIsExact(PackV6(a.groups), value);
      PackOfUnpackV6(AddPacked(PackV6(a.groups), value));
    } else {
      PackOfUnpackV4(AddWord(PackV4(a.octets), value));
    }
  }

  lemma SubtractIsExact(a: Address, value: Word32)
    requires !a.NoAddress?
    ensures Subtract(a, value).Ok? && SameType(Subtract(a, value).value, a)
    ensures Number(Subtract(a, value).value) == Wrap(a, Number(a) - value) <==> SubtractInRange(a, value)
  {
    if a.V6? {
      SubtractPackedIsExact(PackV6(a.groups), value);
      PackOfUnpackV6(SubtractPacked(PackV6(a.groups), value));
    } else {
      PackOfUnpackV4(SubtractWord(PackV4(a.octets), value));
    }
  }

  /** What V6 addition gives on every operand: an overflow of the low word by `c` clears it and adds `c`
      to the high word; an overflow of that clears it too, and what is left goes into the low word. */
  lemma AddPackedGives(v: PackedV6, value: Word32)
    ensures var c := v.second + value - 0xFFFF_FFFF_FFFF_FFFF;
      PackedNumber(AddPacked(v, value))
      == if c <= 0 then PackedNumber(v) + value
         else if v.first + c < 0x1_0000_0000_0000_0000 then (v.first + c) * 0x1_0000_0000_0000_0000
         else v.first + c - 0x1_0000_0000_0000_0000
  {
  }

  /** What V6 subtraction gives on every operand, for an underflow of the low word by `b`. */
  lemma SubtractPackedGives(v: PackedV6, value: Word32)
    ensures var b := value - v.second;
      PackedNumber(SubtractPacked(v, value))
      == if b <= 0 then PackedNumber(v) - value
         else if b <= v.first then (v.first - b) * 0x1_0000_0000_0000_0000 + 0xFFFF_FFFF_FFFF_FFFF
         else 0x1_0000_0000_0000_0000_0000_0000_0000_0000 - (b - v.first)
  {
  }

  lemma HalvesOf(p: PackedV6)
    ensures PackedNumber(p) / 0x1_0000_0000_0000_0000 == p.first
    ensures PackedNumber(p) % 0x1_0000_0000_0000_0000 == p.second
  {
    QuotientIs(PackedNumber(p), 0x1_0000_0000_0000_0000, p.first, p.second);
  }

  /** The sum of any address and any number, in numbers. */
  lemma AddGives(a: Address, value: Word32)
    requires !a.NoAddress?
    ensures Add(a, value).Ok? && SameType(Add(a, value).value, a)
    ensures a.V4? ==> Number(Add(a, value).value) == (Number(a) + value) % 0x1_0000_0000
    ensures a.V6? ==>
      var high, low := Number(a) / 0x1_0000_0000_0000_0000, Number(a) % 0x1_0000_0000_0000_0000;
      var c := low + value - 0xFFFF_FFFF_FFFF_FFFF;
      Number(Add(a, value).value)
      == if c <= 0 then Number(a) + value
         else if high + c < 0x1_0000_0000_0000_0000 then (high + c) * 0x1_0000_0000_0000_0000
         else high + c - 0x1_0000_0000_0000_0000
  {
    hide PackV4, PackV6, UnpackV4, UnpackV6, PackedNumber, AddPacked;
    if a.V6? {
      HalvesOf(PackV6(a.groups));
      AddPackedGives(PackV6(a.groups), value);
      PackOfUnpackV6(AddPacked(PackV6(a.groups), value));
    } else {
      PackOfUnpackV4(AddWord(PackV4(a.octets), value));
    }
  }

  /** The difference of any address and any number, in numbers. */
  lemma SubtractGives(a: Address, value: Word32)
    requires !a.NoAddress?
    ensures Subtract(a, value).Ok? && SameType(Subtract(a, value).value, a)
    ensures a.V4? ==> Number(Subtract(a, value).value) == (Number(a) - value) % 0x1_0000_0000
    ensures a.V6? ==>
      var high, low := Number(a) / 0x1_0000_0000_0000_0000, Number(a) % 0x1_0000_0000_0000_0000;
      var b := value - low;
      Number(Subtract(a, value).value)
      == if b <= 0 then Number(a) - value
         else if b <= high then (high - b) * 0x1_0000_0000_0000_0000 + 0xFFFF_FFFF_FFFF_FFFF
         else 0x1_0000_0000_0000_0000_0000_0000_0000_0000 - (b - high)
  {
    hide PackV4, PackV6, UnpackV4, UnpackV6, PackedNumber, SubtractPacked;
    if a.V6? {
      HalvesOf(PackV6(a.groups));
      SubtractPackedGives(PackV6(a.groups), value);
      PackOfUnpackV6(SubtractPacked(PackV6(a.groups), value));
    } else {
      PackOfUnpackV4(SubtractWord(PackV4(a.octets), value));
    }
  }

  /** A V6 sum the program gets wrong: `::ffff:ffff:ffff:ffff + 2` gives `0:0:0:2::`. */
  lemma AddOverflowByTwo()
    ensures AddPacked(PackedV6(0, 0xFFFF_FFFF_FFFF_FFFF), 2) == PackedV6(2, 0)
    ensures PackedNumber(PackedV6(0, 0xFFFF_FFFF_FFFF_FFFF)) + 2 == PackedNumber(PackedV6(1, 1))
  {
  }

  /** A V6 difference the program gets wrong: `0:0:0:1:: - 2` gives the last address of all. */
  lemma SubtractUnderflowByTwo()
    ensures SubtractPacked(PackedV6(1, 0), 2) == PackedV6(0xFFFF_FFFF_FFFF_FFFF, 0xFFFF_FFFF_FFFF_FFFF)
    ensures PackedNumber(PackedV6(1, 0)) - 2 == PackedNumber(PackedV6(0, 0xFFFF_FFFF_FFFF_FFFE))
  {
  }

  // ---- increment and decrement ----

  function Increment(a: Address): Result<Address> {
    Add(a, 1)
  }

  function Decrement(a: Address): Result<Address> {
    Subtract(a, 1)
  }

  /** One step never leaves the exact range, on any address. */
  lemma StepIsExact(a: Address)
    requires !a.NoAddress?
    ensures Increment(a).Ok? && SameType(Increment(a).value, a)
    ensures Number(Increment(a).value) == Wrap(a, Number(a) + 1)
    ensures Decrement(a).Ok? && SameType(Decrement(a).value, a)
    ensures Number(Decrement(a).value) == Wrap(a, Number(a) - 1)
  {
    AddIsExact(a, 1);
    SubtractIsExact(a, 1);
  }

  /** Incrementing and decrementing undo each other. */
  lemma StepsUndoEachOther(a: Address)
    requires !a.NoAddress?
    ensures Increment(a).Ok? && Decrement(Increment(a).value) == Ok(a)
    ensures Decrement(a).Ok? && Increment(Decrement(a).value) == Ok(a)
  {
    match a
    case V4(octets) => StepsUndoV4(octets);
    case V6(groups) => StepsUndoV6(groups);
  }

  lemma StepsUndoV4(o: Octets)
    ensures Increment(V4(o)).Ok? && Decrement(Increment(V4(o)).value) == Ok(V4(o))
    ensures Decrement(V4(o)).Ok? && Increment(Decrement(V4(o)).value) == Ok(V4(o))
  {
    var p := PackV4(o);
    UnpackOfPackV4(o);
    PackOfUnpackV4(AddWord(p, 1));
    PackOfUnpackV4(SubtractWord(p, 1));
    WordStepsUndo(p);
  }

  lemma WordStepsUndo(p: Word32)
    ensures SubtractWord(AddWord(p, 1), 1) == p && AddWord(SubtractWord(p, 1), 1) == p
  {
  }

  lemma StepsUndoV6(g: Groups)
    ensures Decrement(Increment(V6(g)).value) == Ok(V6(g))
    ensures Increment(Decrement(V6(g)).value) == Ok(V6(g))
  {
    var p := PackV6(g);
    UnpackOfPackV6(g);
    PackOfUnpackV6(AddPacked(p, 1));
    PackOfUnpackV6(SubtractPacked(p, 1));
    PackedStepsUndo(p);
  }

  lemma PackedStepsUndo(p: PackedV6)
    ensures SubtractPacked(AddPacked(p, 1), 1) == p && AddPacked(SubtractPacked(p, 1), 1) == p
  {
  }

  lemma WrapOfSmall(a: Address, n: nat)
    requires n < Size(a)
    ensures Wrap(a, n) == n
  {
  }

  lemma WrapOfSuccessor(a: Address, n: nat)
    requires n < Size(a)
    ensures Wrap(a, n + 1) == if n == Size(a) - 1 then 0 else n + 1
  {
  }

  lemma WrapStep(a: Address, n: nat)
    ensures Wrap(a, Wrap(a, n) + 1) == Wrap(a, n + 1)
  {
    AddOneModulo(n, 0x1_0000_0000);
    AddOneModulo(n, 0x1_0000_0000_0000_0000_0000_0000_0000_0000);
  }

  lemma AddOneModulo(x: nat, size: nat)
    requires size > 1
    ensures (x % size + 1) % size == (x + 1) % size
  {
    var q, r := x / size, x % size;
    assert x == q * size + r;
    if r + 1 < size {
      QuotientIs(x + 1, size, q, r + 1);
      QuotientIs(r + 1, size, 0, r + 1);
    } else {
      QuotientIs(x + 1, size, q + 1, 0);
      QuotientIs(size, size, 1, 0);
    }
  }

  ghost function IncrementBy(a: Address, n: nat): (b: Address)
    requires !a.NoAddress?
    ensures SameType(b, a)
  {
    if n == 0 then a
    else
      var b := IncrementBy(a, n - 1);
      StepIsExact(b);
      Increment(b).value
  }

  /** `n` increments add `n` modulo the size of the address space. */
  lemma {:induction false} IncrementByAdds(a: Address, n: nat)
    requires !a.NoAddress?
    ensures Number(IncrementBy(a, n)) == Wrap(a, Number(a) + n)
  {
    if n == 0 {
      NumberBound(a);
      WrapOfSmall(a, Number(a));
    } else {
      IncrementByAdds(a, n - 1);
      OneMore(a, IncrementBy(a, n - 1), Number(a) + n - 1);
    }
  }

  lemma OneMore(a: Address, b: Address, m: nat)
    requires !a.NoAddress? && SameType(b, a) && Number(b) == Wrap(a, m)
    ensures Increment(b).Ok? && Number(Increment(b).value) == Wrap(a, m + 1)
  {
    StepIsExact(b);
    WrapStep(a, m);
  }

  // ---- masks ----

  function BitAnd(a: Address, b: Address): Result<Address> {
    match a
    case NoAddress => InvalidArgument
    case V4(_) =>
      var l :- GetPackedV4(a);
      var r :- GetPackedV4(b);
      AndBound(l, r);
      Ok(V4(UnpackV4(And(l, r))))
    case V6(_) =>
      var l :- GetPackedV6(a);
      var r :- GetPackedV6(b);
      AndBound(l.first, r.first);
      AndBound(l.second, r.second);
      Ok(V6(UnpackV6(PackedV6(And(l.first, r.first), And(l.second, r.second)))))
  }

  function BitOr(a: Address, b: Address): Result<Address> {
    match a
    case NoAddress => InvalidArgument
    case V4(_) =>
      var l :- GetPackedV4(a);
      var r :- GetPackedV4(b);
      Pow2Values();
      OrBound(l, r, 32);
      Ok(V4(UnpackV4(Or(l, r))))
    case V6(_) =>
      var l :- GetPackedV6(a);
      var r :- GetPackedV6(b);
      Pow2Values();
      OrBound(l.first, r.first, 64);
      OrBound(l.second, r.second, 64);
      Ok(V6(UnpackV6(PackedV6(Or(l.first, r.first), Or(l.second, r.second)))))
  }

  /** Or-ing words or-s the groups they are made of. */
  lemma OrOfWords(g: seq<nat>, h: seq<nat>)
    requires |g| == |h| == 4 && Digits.InBase(g, 0x1_0000) && Digits.InBase(h, 0x1_0000)
    ensures forall i :: 0 <= i < 4 ==> Or(g[i], h[i]) < 0x1_0000
    ensures Or(PackWord(g), PackWord(h)) == PackWord(OrEach(g, h))
  {
    Pow2Values();
    forall i | 0 <= i < 4
      ensures Or(g[i], h[i]) < 0x1_0000
    {
      OrBound(g[i], h[i], 16);
    }
    FieldsAreDigits(g);
    FieldsAreDigits(h);
    FieldsAreDigits(OrEach(g, h));
    OrOfFours(g[0], g[1], g[2], g[3], h[0], h[1], h[2], h[3], 16);
  }

  function OrEach(g: seq<nat>, h: seq<nat>): seq<nat>
    requires |g| == |h|
  {
    seq(|g|, i requires 0 <= i < |g| => Or(g[i], h[i]))
  }

  /** `&` and `|` need two addresses of one type, and then work on the bits of the two numbers. */
  lemma OperatorsAreBitwise(a: Address, b: Address, i: nat)
    ensures BitAnd(a, b).Ok? <==> SameType(a, b) && !a.NoAddress?
    ensures BitOr(a, b).Ok? <==> SameType(a, b) && !a.NoAddress?
    ensures BitAnd(a, b).Ok? ==> SameType(BitAnd(a, b).value, a) && SameType(BitOr(a, b).value, a)
    ensures BitAnd(a, b).Ok? ==> (Bit(Number(BitAnd(a, b).value), i) <==> Bit(Number(a), i) && Bit(Number(b), i))
    ensures BitOr(a, b).Ok? ==> (Bit(Number(BitOr(a, b).value), i) <==> Bit(Number(a), i) || Bit(Number(b), i))
  {
    hide PackV4, UnpackV4, PackV6, UnpackV6, And, Or, Bit, PackedNumber;
    AndIsBitwise(Number(a), Number(b), i);
    OrIsBitwise(Number(a), Number(b), i);
    if a.V4? && b.V4? {
      OperatorsV4(a.octets, b.octets);
    } else if a.V6? && b.V6? {
      OperatorsV6(a.groups, b.groups);
    }
  }

  lemma OperatorsV4(o: Octets, p: Octets)
    ensures Number(BitAnd(V4(o), V4(p)).value) == And(PackV4(o), PackV4(p))
    ensures Number(BitOr(V4(o), V4(p)).value) == Or(PackV4(o), PackV4(p))
  {
    hide PackV4, UnpackV4, And, Or, Pow2;
    Pow2Values();
    AndBound(PackV4(o), PackV4(p));
    OrBound(PackV4(o), PackV4(p), 32);
    PackOfUnpackV4(And(PackV4(o), PackV4(p)));
    PackOfUnpackV4(Or(PackV4(o), PackV4(p)));
  }

  lemma OperatorsV6(g: Groups, h: Groups)
    ensures Number(BitAnd(V6(g), V6(h)).value) == And(PackedNumber(PackV6(g)), PackedNumber(PackV6(h)))
    ensures Number(BitOr(V6(g), V6(h)).value) == Or(PackedNumber(PackV6(g)), PackedNumber(PackV6(h)))
  {
    hide PackV6, UnpackV6, And, Or, Pow2, Scale;
    Pow2Values();
    var p, q := PackV6(g), PackV6(h);
    AndBound(p.first, q.first);
    AndBound(p.second, q.second);
    OrBound(p.first, q.first, 64);
    OrBound(p.second, q.second, 64);
    PackOfUnpackV6(PackedV6(And(p.first, q.first), And(p.second, q.second)));
    PackOfUnpackV6(PackedV6(Or(p.first, q.first), Or(p.second, q.second)));
    ScaleIsTimes(p.first, 64);
    ScaleIsTimes(q.first, 64);
    ScaleIsTimes(And(p.first, q.first), 64);
    ScaleIsTimes(Or(p.first, q.first), 64);
    AndSplit(p.first, p.second, q.first, q.second, 64);
    OrSplit(p.first, p.second, q.first, q.second, 64);
  }

  // ---- order ----

  function TypeRank(a: Address): nat {
    match a
    case NoAddress => 0
    case V4(_) => 1
    case V6(_) => 2
  }

  predicate Equal(a: Address, b: Address) {
    match (a, b)
    case (NoAddress, NoAddress) => true
    case (V4(x), V4(y)) => x == y
    case (V6(x), V6(y)) => x == y
    case _ => false
  }

  function Less(a: Address, b: Address): Result<bool> {
    if TypeRank(a) != TypeRank(b) then Ok(TypeRank(a) < TypeRank(b))
    else match a
      case NoAddress => InvalidArgument
      case V4(octets) => Ok(Digits.LexLess(octets, b.octets))
      case V6(groups) => Ok(Digits.LexLess(groups, b.groups))
  }

  function LessOrEqual(a: Address, b: Address): Result<bool> {
    if TypeRank(a) != TypeRank(b) then Ok(TypeRank(a) < TypeRank(b))
    else match a
      case NoAddress => InvalidArgument
      case V4(octets) => Ok(!Digits.LexLess(b.octets, octets))
      case V6(groups) => Ok(!Digits.LexLess(b.groups, groups))
  }

  /** On addresses of one type the order is the order of the numbers; V4 comes before V6. */
  lemma OrderIsNumeric(a: Address, b: Address)
    requires !a.NoAddress? && !b.NoAddress?
    ensures Less(a, b) == Ok(if a.V4? == b.V4? then Number(a) < Number(b) else a.V4?)
    ensures LessOrEqual(a, b) == Ok(if a.V4? == b.V4? then Number(a) <= Number(b) else a.V4?)
  {
    if a.V4? && b.V4? {
      Digits.LexLessIsNumeric(a.octets, b.octets, 0x100);
      Digits.LexLessIsNumeric(b.octets, a.octets, 0x100);
    } else if a.V6? && b.V6? {
      GroupsValue(a.groups);
      GroupsValue(b.groups);
      Digits.LexLessIsNumeric(a.groups, b.groups, 0x1_0000);
      Digits.LexLessIsNumeric(b.groups, a.groups, 0x1_0000);
    }
  }

  /** `<` is a strict total order on valid addresses and `<=` is its reflexive closure. */
  lemma OrderIsStrictAndTotal(a: Address, b: Address, c: Address)
    requires !a.NoAddress? && !b.NoAddress? && !c.NoAddress?
    ensures Less(a, a) == Ok(false)
    ensures Less(a, b) == Ok(true) && Less(b, c) == Ok(true) ==> Less(a, c) == Ok(true)
    ensures a != b ==> (Less(a, b) == Ok(true) <==> Less(b, a) == Ok(false))
    ensures LessOrEqual(a, b) == Ok(true) <==> Less(a, b) == Ok(true) || a == b
  {
    OrderIsNumeric(a, a);
    OrderIsNumeric(a, b);
    OrderIsNumeric(b, a);
    OrderIsNumeric(b, c);
    OrderIsNumeric(a, c);
    if a.V4? == b.V4? && Number(a) == Number(b) {
      NumberIsInjective(a, b);
    }
  }

  /** Incrementing moves an address up in the order, except from the last address. */
  lemma IncrementGrows(a: Address)
    requires !a.NoAddress?
    ensures Increment(a).Ok?
    ensures Less(a, Increment(a).value) == Ok(Number(a) != Size(a) - 1)
  {
    StepIsExact(a);
    NumberBound(a);
    OrderIsNumeric(a, Increment(a).value);
    WrapOfSuccessor(a, Number(a));
  }

  // ---- V4 addresses inside V6 ones ----

  const EMBEDDED_MASK: PackedV6 := PackedV6(0xFFFF_FFFF_FFFF_FFFF, 0xFFFF_FFFF_0000_0000)
  const COMPATIBLE_VALUE: PackedV6 := PackedV6(0, 0)
  const MAPPED_VALUE: PackedV6 := PackedV6(0, 0x0000_FFFF_0000_0000)

  predicate IsEmbeddedCompatible(p: PackedV6) {
    And(p.first, EMBEDDED_MASK.first) == COMPATIBLE_VALUE.first &&
    And(p.second, EMBEDDED_MASK.second) == COMPATIBLE_VALUE.second
  }

  predicate IsEmbeddedMapped(p: PackedV6) {
    And(p.first, EMBEDDED_MASK.first) == MAPPED_VALUE.first &&
    And(p.second, EMBEDDED_MASK.second) == MAPPED_VALUE.second
  }

  predicate IsCompatible(a: Address) {
    a.V6? && IsEmbeddedCompatible(PackV6(a.groups))
  }

  predicate IsMapped(a: Address) {
    a.V6? && IsEmbeddedMapped(PackV6(a.groups))
  }

  function EmbedAt(prefix: PackedV6, v4: Address): Result<Address> {
    var packed :- GetPackedV4(v4);
    Ok(V6(UnpackV6(prefix)[6 := packed / 0x1_0000][7 := packed % 0x1_0000]))
  }

  function ToCompatible(v4: Address): Result<Address> {
    EmbedAt(COMPATIBLE_VALUE, v4)
  }

  function ToMapped(v4: Address): Result<Address> {
    EmbedAt(MAPPED_VALUE, v4)
  }

  function Embedded(g: Groups): Address {
    V4(UnpackV4(g[6] * 0x1_0000 + g[7]))
  }

  function FromCompatible(a: Address): Result<Address> {
    if IsCompatible(a) then Ok(Embedded(a.groups)) else InvalidArgument
  }

  function FromMapped(a: Address): Result<Address> {
    if IsMapped(a) then Ok(Embedded(a.groups)) else InvalidArgument
  }

  /** The mask tests recognise exactly the prefixes `::/96` and `::ffff:0:0/96`. */
  lemma EmbeddedPrefixes(g: Groups)
    ensures IsCompatible(V6(g)) <==> g[..6] == [0, 0, 0, 0, 0, 0]
    ensures IsMapped(V6(g)) <==> g[..6] == [0, 0, 0, 0, 0, 0xFFFF]
  {
    var p := PackV6(g);
    MaskedWords(p);
    WordOfGroups(g[..4]);
    WordOfGroups(g[4..]);
    QuotientIs(p.second, 0x1_0000_0000, g[4] * 0x1_0000 + g[5], g[6] * 0x1_0000 + g[7]);
  }

  lemma MaskedWords(p: PackedV6)
    ensures And(p.first, EMBEDDED_MASK.first) == p.first
    ensures And(p.second, EMBEDDED_MASK.second) == p.second - p.second % 0x1_0000_0000
  {
    Pow2Values();
    assert Pow2(0) == 1 && LowBits(p.first, 0) == 0;
    AndHighMask(p.first, 0, 64);
    AndHighMask(p.second, 32, 64);
    ShrIsQuotient(p.second, 32);
  }

  lemma WordOfGroups(g: seq<nat>)
    requires |g| == 4 && Digits.InBase(g, 0x1_0000)
    ensures PackWord(g) == ((g[0] * 0x1_0000 + g[1]) * 0x1_0000 + g[2]) * 0x1_0000 + g[3]
  {
    ValueOfFour(g, 0x1_0000);
  }

  /** Embedding a V4 address and taking it out again gives it back, and only V4 addresses embed. */
  lemma EmbeddingRoundTrip(a: Address)
    ensures a.V4? <==> ToCompatible(a).Ok?
    ensures a.V4? <==> ToMapped(a).Ok?
    ensures a.V4? ==> FromCompatible(ToCompatible(a).value) == Ok(a) && !IsMapped(ToCompatible(a).value)
    ensures a.V4? ==> FromMapped(ToMapped(a).value) == Ok(a) && !IsCompatible(ToMapped(a).value)
  {
    if a.V4? {
      EmbedAtGroups(COMPATIBLE_VALUE, a, 0);
      EmbedAtGroups(MAPPED_VALUE, a, 0xFFFF);
      EmbeddedPrefixes(ToCompatible(a).value.groups);
      EmbeddedPrefixes(ToMapped(a).value.groups);
    }
  }

  lemma EmbedAtGroups(prefix: PackedV6, a: Address, marker: Group)
    requires a.V4? && prefix == PackedV6(0, marker * 0x1_0000_0000)
    ensures EmbedAt(prefix, a).Ok? && EmbedAt(prefix, a).value.V6?
    ensures var g := EmbedAt(prefix, a).value.groups; g[..6] == [0, 0, 0, 0, 0, marker] && Embedded(g) == a
  {
    UnpackMarker(prefix, marker);
    EmbeddedHalves(a.octets, EmbedAt(prefix, a).value.groups);
  }

  lemma UnpackMarker(prefix: PackedV6, marker: Group)
    requires prefix == PackedV6(0, marker * 0x1_0000_0000)
    ensures UnpackV6(prefix) == [0, 0, 0, 0, 0, marker, 0, 0]
  {
    hide PackWord, UnpackV6;
    var filled: Groups := [0, 0, 0, 0, 0, marker, 0, 0];
    WordOfGroups(filled[..4]);
    WordOfGroups(filled[4..]);
    UnpackOfPackV6(filled);
  }

  lemma EmbeddedHalves(o: Octets, g: Groups)
    requires g[6] == PackV4(o) / 0x1_0000 && g[7] == PackV4(o) % 0x1_0000
    ensures Embedded(g) == V4(o)
  {
    UnpackOfPackV4(o);
    assert g[6] * 0x1_0000 + g[7] == PackV4(o);
  }

  // ---- embedded addresses in numbers ----

  lemma NumberOfEmbedded(g: Groups)
    requires g[0] == g[1] == g[2] == g[3] == g[4] == 0
    ensures Number(V6(g)) == g[5] * 0x1_0000_0000 + g[6] * 0x1_0000 + g[7]
    ensures Number(Embedded(g)) == g[6] * 0x1_0000 + g[7] < 0x1_0000_0000
  {
    hide PackV4, UnpackV4, PackWord;
    WordOfGroups(g[..4]);
    WordOfGroups(g[4..]);
    PackOfUnpackV4(g[6] * 0x1_0000 + g[7]);
  }

  /** Embedding keeps the number of an address, behind the prefix. */
  lemma EmbeddedNumber(a: Address)
    requires a.V4?
    ensures ToCompatible(a).Ok? && ToCompatible(a).value.V6? && Number(ToCompatible(a).value) == Number(a)
    ensures ToMapped(a).Ok? && ToMapped(a).value.V6?
    ensures Number(ToMapped(a).value) == 0xFFFF_0000_0000 + Number(a)
  {
    hide Number, Embedded, EmbedAt, UnpackV6;
    EmbedAtGroups(COMPATIBLE_VALUE, a, 0);
    EmbedAtGroups(MAPPED_VALUE, a, 0xFFFF);
    FirstSix(ToCompatible(a).value.groups, 0);
    FirstSix(ToMapped(a).value.groups, 0xFFFF);
    NumberOfEmbedded(ToCompatible(a).value.groups);
    NumberOfEmbedded(ToMapped(a).value.groups);
  }

  lemma FirstSix(g: Groups, marker: nat)
    ensures g[..6] == [0, 0, 0, 0, 0, marker] <==> g[0] == g[1] == g[2] == g[3] == g[4] == 0 && g[5] == marker
  {
    var six := g[..6];
    assert six[0] == g[0] && six[1] == g[1] && six[2] == g[2] && six[3] == g[3] && six[4] == g[4] && six[5] == g[5];
  }

  lemma FirstSixByNumber(g: Groups)
    ensures g[..6] == [0, 0, 0, 0, 0, 0] <==> Number(V6(g)) < 0x1_0000_0000
    ensures g[..6] == [0, 0, 0, 0, 0, 0xFFFF] <==> 0xFFFF_0000_0000 <= Number(V6(g)) < 0x1_0000_0000_0000
  {
    hide PackWord;
    FirstSix(g, 0);
    FirstSix(g, 0xFFFF);
    WordOfGroups(g[..4]);
    WordOfGroups(g[4..]);
  }

  /** Exactly the addresses below 2^32 have a compatible V4 address, and exactly those of the block that
      begins at 0xFFFF_0000_0000 a mapped one, with the number that they have in their block. */
  lemma EmbeddedAreBlocks(a: Address)
    ensures FromCompatible(a).Ok? <==> a.V6? && Number(a) < 0x1_0000_0000
    ensures FromCompatible(a).Ok? ==> FromCompatible(a).value.V4? && Number(FromCompatible(a).value) == Number(a)
    ensures FromMapped(a).Ok? <==> a.V6? && 0xFFFF_0000_0000 <= Number(a) < 0x1_0000_0000_0000
    ensures FromMapped(a).Ok? ==>
      FromMapped(a).value.V4? && Number(FromMapped(a).value) == Number(a) - 0xFFFF_0000_0000
  {
    hide PackV4, UnpackV4, PackWord, IsEmbeddedCompatible, IsEmbeddedMapped, Number;
    if a.V6? {
      EmbeddedPrefixes(a.groups);
      FirstSixByNumber(a.groups);
      FirstSix(a.groups, 0);
      FirstSix(a.groups, 0xFFFF);
      if FromCompatible(a).Ok? || FromMapped(a).Ok? {
        NumberOfEmbedded(a.groups);
      }
    }
  }

  // ---- comparing with no address ----

  /** Equality is equality of type and value, and no address comes before all others but cannot be compared
      with itself. */
  lemma NoAddressIsFirst(a: Address, b: Address)
    ensures Equal(a, b) <==> a == b
    ensures a.NoAddress? && !b.NoAddress? ==> Less(a, b) == Ok(true) && LessOrEqual(a, b) == Ok(true)
    ensures !a.NoAddress? && b.NoAddress? ==> Less(a, b) == Ok(false) && LessOrEqual(a, b) == Ok(false)
    ensures Less(a, b).InvalidArgument? <==> a.NoAddress? && b.NoAddress?
    ensures LessOrEqual(a, b).InvalidArgument? <==> a.NoAddress? && b.NoAddress?
  {
  }
}
