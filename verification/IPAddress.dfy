/** The `IPAddress` object: its fields, and the printed text it keeps in a fixed buffer. */
module IPAddressObject {
  import opened Common
  import opened Words
  import opened Addresses
  import opened Parser
  import opened Printer
  import opened RoundTrip

  datatype Type = TypeNone | TypeV4 | TypeV6

  /** The C string at the start of a buffer: what stands before the first NUL. */
  function TextIn(buffer: seq<char>): string {
    if buffer == [] || buffer[0] == '\0' then "" else [buffer[0]] + TextIn(buffer[1..])
  }

  /** Bytes behind the terminator are not read. */
  lemma {:induction false} TextInTerminated(buffer: seq<char>, text: string)
    requires |text| < |buffer| && buffer[..|text|] == text && buffer[|text|] == '\0' && '\0' !in text
    ensures TextIn(buffer) == text
  {
    if text != "" {
      assert buffer[0] == text[0];
      assert buffer[1..][..|text| - 1] == text[1..];
      TextInTerminated(buffer[1..], text[1..]);
    }
  }

  class IPAddress {
    var kind: Type
    var ipv4: Octets
    var ipv6: Groups
    const ipString: array<char>

    /** The value the fields stand for. */
    function Value(): Address
      reads this
    {
      match kind
      case TypeNone => NoAddress
      case TypeV4 => V4(ipv4)
      case TypeV6 => V6(ipv6)
    }

    /** The buffer holds the text of the value. */
    ghost predicate Valid()
      reads this, ipString
    {
      ipString.Length == 40 && TextIn(ipString[..]) == Text(Value())
    }

    /** No address; the buffer is filled with its text and NULs. */
    constructor ()
      ensures Valid() && fresh(ipString) && Value() == NoAddress && TextIn(ipString[..]) == "Invalid IP"
    {
      kind, ipv4, ipv6 := TypeNone, [0, 0, 0, 0], [0, 0, 0, 0, 0, 0, 0, 0];
      var initial := "Invalid IP";
      ipString := new char[40](i => if 0 <= i < |initial| then initial[i] else '\0');
      new;
      assert ipString[..][..10] == "Invalid IP";
      TextInTerminated(ipString[..], "Invalid IP");
    }

    constructor FromV4(ipv4: Octets)
      ensures Valid() && fresh(ipString) && Value() == V4(ipv4)
    {
      kind, this.ipv4, ipv6 := TypeV4, ipv4, [0, 0, 0, 0, 0, 0, 0, 0];
      ipString := new char[40](_ => '\0');
      new;
      BuildIPString();
    }

    constructor FromV6(ipv6: Groups)
      ensures Valid() && fresh(ipString) && Value() == V6(ipv6)
    {
      kind, ipv4, this.ipv6 := TypeV6, [0, 0, 0, 0], ipv6;
      ipString := new char[40](_ => '\0');
      new;
      BuildIPString();
    }

    /** Print the value into the buffer, over whatever it holds. The truncation is never taken. Without a
        value the text differs from that of the default object. */
    method BuildIPString()
      requires ipString.Length == 40
      modifies ipString
      ensures kind != TypeNone ==> Valid()
      ensures kind == TypeNone ==> TextIn(ipString[..]) == "Invalid IPAddress"
    {
      hide TextIn, TextWith, Shortened, TextV4, PackV6, IsEmbeddedCompatible, IsEmbeddedMapped;
      var ip: string;
      match kind {
        case TypeV4 =>
          ip := BuildIPV4String(ipv4);
        case TypeV6 =>
          var packedIP := PackGroups(ipv6);
          var displayAsEmbeddedIPV4 := IsEmbeddedCompatible(packedIP) || IsEmbeddedMapped(packedIP);
          ip := BuildIPV6String(ipv6, packedIP, displayAsEmbeddedIPV4);
        case TypeNone =>
          ip := "Invalid IPAddress";
      }
      TextLength(Value());
      TextHasNoNul(Value());
      assert |ip| <= 39 && '\0' !in ip;
      var len := |ip|;
      if len >= ipString.Length {
        assert false;
      }
      CopyToBuffer(ip);
      TextInTerminated(ipString[..], ip);
    }

    method CopyToBuffer(ip: string)
      requires |ip| < ipString.Length
      modifies ipString
      ensures ipString[..][..|ip|] == ip && ipString[|ip|] == '\0'
    {
      var len := |ip|;
      for i := 0 to len
        invariant ipString[..i] == ip[..i]
      {
        ipString[i] := ip[i];
      }
      ipString[len] := '\0';
      assert ipString[..][..len] == ip;
    }

    method SetValueV4(ipv4: Octets)
      requires ipString.Length == 40
      modifies this, ipString
      ensures Valid() && Value() == V4(ipv4)
    {
      kind, this.ipv4, ipv6 := TypeV4, ipv4, [0, 0, 0, 0, 0, 0, 0, 0];
      BuildIPString();
    }

    method SetValueV6(ipv6: Groups)
      requires ipString.Length == 40
      modifies this, ipString
      ensures Valid() && Value() == V6(ipv6)
    {
      kind, ipv4, this.ipv6 := TypeV6, [0, 0, 0, 0], ipv6;
      BuildIPString();
    }

    method SetValuePackedV4(ipv4: Word32)
      requires ipString.Length == 40
      modifies this, ipString
      ensures Valid() && Value() == V4(UnpackV4(ipv4))
    {
      var octets := UnpackOctets(ipv4);
      SetValueV4(octets);
    }

    method SetValuePackedV6(ipv6: PackedV6)
      requires ipString.Length == 40
      modifies this, ipString
      ensures Valid() && Value() == V6(UnpackV6(ipv6))
    {
      var groups := UnpackGroups(ipv6);
      SetValueV6(groups);
    }

    constructor FromPackedV4(ipv4: Word32)
      ensures Valid() && fresh(ipString) && Value() == V4(UnpackV4(ipv4))
    {
      kind, this.ipv4, ipv6 := TypeNone, [0, 0, 0, 0], [0, 0, 0, 0, 0, 0, 0, 0];
      ipString := new char[40](_ => '\0');
      new;
      SetValuePackedV4(ipv4);
    }

    constructor FromPackedV6(ipv6: PackedV6)
      ensures Valid() && fresh(ipString) && Value() == V6(UnpackV6(ipv6))
    {
      kind, ipv4, this.ipv6 := TypeNone, [0, 0, 0, 0], [0, 0, 0, 0, 0, 0, 0, 0];
      ipString := new char[40](_ => '\0');
      new;
      SetValuePackedV6(ipv6);
    }

    /** The string constructor: an object for the address the text denotes, if it denotes one. */
    static method FromString(text: string) returns (r: Result<IPAddress>)
      requires text != ":" && |text| < 0xFFFF_FFFF
      ensures r.Ok? <==> ParseText(text).Ok?
      ensures r.Ok? ==> fresh(r.value) && fresh(r.value.ipString) && r.value.Valid()
      ensures r.Ok? ==> Ok(r.value.Value()) == ParseText(text)
    {
      hide ParseText;
      var parsed := ParseAddress(text);
      if parsed.InvalidArgument? {
        return InvalidArgument;
      }
      var ip := new IPAddress();
      match parsed.value {
        case NoAddress =>
        case V4(octets) => ip.SetValueV4(octets);
        case V6(groups) => ip.SetValueV6(groups);
      }
      r := Ok(ip);
    }

    /** The constructors that put a V4 address behind the prefix of the compatible or of the mapped ones;
        any other address is refused. */
    static method FromCompatibleV4(ipv4: IPAddress) returns (r: Result<IPAddress>)
      requires ipv4.Valid()
      ensures r.Ok? <==> ToCompatible(ipv4.Value()).Ok?
      ensures r.Ok? ==> fresh(r.value) && fresh(r.value.ipString) && r.value.Valid()
      ensures r.Ok? ==> Ok(r.value.Value()) == ToCompatible(ipv4.Value())
    {
      if ipv4.kind != TypeV4 {
        return InvalidArgument;
      }
      var prefix := UnpackGroups(COMPATIBLE_VALUE);
      var packedV4 := PackOctets(ipv4.ipv4);
      ShiftBy8And16(packedV4);
      var ip := new IPAddress.FromV6(prefix[6 := Shr(packedV4, 16)][7 := And(packedV4, 0xFFFF)]);
      r := Ok(ip);
    }

    static method FromMappedV4(ipv4: IPAddress) returns (r: Result<IPAddress>)
      requires ipv4.Valid()
      ensures r.Ok? <==> ToMapped(ipv4.Value()).Ok?
      ensures r.Ok? ==> fresh(r.value) && fresh(r.value.ipString) && r.value.Valid()
      ensures r.Ok? ==> Ok(r.value.Value()) == ToMapped(ipv4.Value())
    {
      if ipv4.kind != TypeV4 {
        return InvalidArgument;
      }
      var prefix := UnpackGroups(MAPPED_VALUE);
      var packedV4 := PackOctets(ipv4.ipv4);
      ShiftBy8And16(packedV4);
      var ip := new IPAddress.FromV6(prefix[6 := Shr(packedV4, 16)][7 := And(packedV4, 0xFFFF)]);
      r := Ok(ip);
    }

    /** The string conversion reads the buffer up to its terminator. */
    method ToString() returns (text: string)
      requires Valid()
      ensures text == Text(Value())
    {
      hide Text;
      var i := 0;
      while i < ipString.Length && ipString[i] != '\0'
        invariant 0 <= i <= ipString.Length
        invariant TextIn(ipString[..]) == ipString[..i] + TextIn(ipString[i..])
      {
        assert ipString[i..][1..] == ipString[i + 1..];
        assert ipString[..i] + [ipString[i]] == ipString[..i + 1];
        i := i + 1;
      }
      text := ipString[..i];
    }

    /** The text form of `operator+`: a new object; the operand stays as it is. */
    method Plus(value: Word32) returns (r: Result<IPAddress>)
      requires Valid()
      ensures r.Ok? <==> Add(Value(), value).Ok?
      ensures r.Ok? ==> fresh(r.value) && fresh(r.value.ipString) && r.value.Valid()
      ensures r.Ok? ==> Ok(r.value.Value()) == Add(Value(), value)
    {
      if kind == TypeV4 {
        var packed := PackOctets(ipv4);
        var ip := new IPAddress.FromPackedV4(AddWord(packed, value));
        r := Ok(ip);
      } else if kind == TypeV6 {
        var v := PackGroups(ipv6);
        var ip := new IPAddress.FromPackedV6(AddPacked(v, value));
        r := Ok(ip);
      } else {
        r := InvalidArgument;
      }
    }

    method Minus(value: Word32) returns (r: Result<IPAddress>)
      requires Valid()
      ensures r.Ok? <==> Subtract(Value(), value).Ok?
      ensures r.Ok? ==> fresh(r.value) && fresh(r.value.ipString) && r.value.Valid()
      ensures r.Ok? ==> Ok(r.value.Value()) == Subtract(Value(), value)
    {
      if kind == TypeV4 {
        var packed := PackOctets(ipv4);
        var ip := new IPAddress.FromPackedV4(SubtractWord(packed, value));
        r := Ok(ip);
      } else if kind == TypeV6 {
        var v := PackGroups(ipv6);
        var ip := new IPAddress.FromPackedV6(SubtractPacked(v, value));
        r := Ok(ip);
      } else {
        r := InvalidArgument;
      }
    }

    /** Copy assignment: all fields, and the whole buffer. */
    method Assign(other: IPAddress)
      requires Valid() && other.Valid() && (other == this || ipString != other.ipString)
      modifies this, ipString
      ensures Valid() && Value() == old(other.Value())
    {
      kind, ipv4, ipv6 := other.kind, other.ipv4, other.ipv6;
      for i := 0 to 40
        invariant ipString[..i] == other.ipString[..i]
        invariant Value() == old(other.Value()) && other.ipString[..] == old(other.ipString[..])
      {
        ipString[i] := other.ipString[i];
      }
      assert ipString[..] == ipString[..40] == other.ipString[..40] == other.ipString[..];
    }

    /** `operator++`: the object moves to the next address and its text with it. */
    method Increment() returns (r: Result<()>)
      requires Valid()
      modifies this, ipString
      ensures Valid()
      ensures r.Ok? <==> old(Value()) != NoAddress
      ensures r.Ok? ==> Ok(Value()) == Addresses.Increment(old(Value()))
      ensures r.Ok? ==> Number(Value()) == Wrap(old(Value()), Number(old(Value())) + 1)
      ensures r.InvalidArgument? ==> Value() == old(Value())
    {
      hide Number, Wrap, Add, Text, TextIn;
      var next := Plus(1);
      if Value() != NoAddress {
        StepIsExact(Value());
        Assign(next.value);
        r := Ok(());
      } else {
        r := InvalidArgument;
      }
    }

    /** `operator--`. */
    method Decrement() returns (r: Result<()>)
      requires Valid()
      modifies this, ipString
      ensures Valid()
      ensures r.Ok? <==> old(Value()) != NoAddress
      ensures r.Ok? ==> Ok(Value()) == Addresses.Decrement(old(Value()))
      ensures r.Ok? ==> Number(Value()) == Wrap(old(Value()), Number(old(Value())) - 1)
      ensures r.InvalidArgument? ==> Value() == old(Value())
    {
      hide Number, Wrap, Subtract, Text, TextIn;
      var previous := Minus(1);
      if Value() != NoAddress {
        StepIsExact(Value());
        Assign(previous.value);
        r := Ok(());
      } else {
        r := InvalidArgument;
      }
    }
  }
}
