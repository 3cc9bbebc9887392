# Network interface helper: a verified model

This project models the core of the L-Acoustics network interface helper library in Dafny and proves
properties of the model. `dafny verify dfyconfig.toml` checks all of it.

Three connected parts are modelled.

**Addresses and their text.** `Words` defines the bit operators of fixed-width words and `Digits`
positional numbers; `Addresses` has the packing, the word-pair arithmetic, the order, the bit operators and
the V4 addresses embedded in V6 ones. `Tokens`, `Numerals`, `Packing` and `Parser` are the tokenizer, the
number reading and the string constructor with its two passes over the tokens, where `Conversions` says what
the number reading returns on every text; `TextForms` states the text
forms of section 2.2 of RFC 4291, and somewhat wider ones with any zero padding and with `::` for no group,
and proves that the parser reads each of them. `Acceptance` says exactly which texts are accepted as V6
addresses and what they are read as, and `PlainTexts` which of these are forms of RFC 4291, with the same for
V4. `Printer` has the two-pass printer, against the choice of section 4.2 of RFC 5952, and `RoundTrip`
connects printer and parser. `IPAddressObject` is the object with its fields and the 40-character buffer,
updated in place. `MacAddresses` does the same for the text of MAC addresses.

**Netmasks and subnets.** `Netmasks` has the validators and the conversions between prefix lengths and
masks, `Subnets` the base address, the broadcast address, the private-network test and the order, each
related to intervals of numbers.

**The interface registry.** `InterfaceEvents` has the events of a full refresh and of each fine-grained
handler, and what an observer can rebuild from them. `RegistryMachine` is the registry with its observers
and polling thread as a state machine over calls made one at a time, with theorems about every run.
`Registry` has the two classes that are updated in place, every method of which is proved to be a step of
that machine; the order of every iteration over a map or a set is left open. `Handover` treats calls that
overlap, where the notifications of the delegate leave the lock.

How the originals are represented: a word is a natural number below its power of two, and wrap-around and
truncation are written out; an exception is the result `InvalidArgument`; an observer is a natural number,
its address, with 0 for the null pointer; what the operating system enumerates is a parameter (`scan`) of
the call that asks for it. The events that each observer got since its registration (`received`) and what
happened to the polling thread (`history`) are ghost fields.

## What the code does that its documentation does not say

- V6 `+` and `-` carry the whole overflow of the low word into the high word (`src/ipAddress.cpp:585-601`,
  `623-639`). `AddPackedIsExact` and `SubtractPackedIsExact` give the exact condition under which the result
  is the sum or difference, `AddOverflowByTwo` and `SubtractUnderflowByTwo` inputs for which it is not. `++`
  and `--` are always exact.
- Texts that are no form of RFC 4291 are accepted: `:1` and `1:` are read like `::1` and `1::`
  (`LoneColonIsAccepted`), and a text with a gap may have more than seven groups as long as neither side has
  more than eight, in which case groups that meet in a slot are or-ed together (`CompressedTextMeaning`,
  `NineGroupsMerge`). `AcceptedExactly` gives all accepted V6 texts, and `AcceptedRfcExactly` says which of
  those with plain numerals are forms of RFC 4291.
- `1..2.3.4` is read like `1.2.3.4` (`RepeatedDots`), and the numbers may have signs, where a negative number
  is taken modulo 2^16, so that `-65535.2.3.4` is `1.2.3.4` (`SpacesAndSigns`). `AcceptedV4Exactly` gives all
  accepted V4 texts, and `AcceptedDottedExactly` says which of those with plain numerals are dotted decimal.
- Compatible addresses whose seventh group is zero are printed without a dotted quad (`EmbeddedText`).
- An object without a value is printed as `Invalid IPAddress`, but starts with the text `Invalid IP`; no
  caller prints such an object.
- Any separator is said to be allowed in the text of a MAC address, but text written with a separator that
  is itself a digit cannot be read back in general (`GoodSeparators`).
- Changes of description, MAC address, type or virtual state of a known interface are never sent
  (`SilentRefresh`).
- The delegate is told of the first and last observer outside the lock, so overlapping calls can reorder
  this. `SafeExactly` says exactly when that does no harm, and `OutOfOrderStrands` gives a sequence with which
  it does.

## Model

| member | source | states |
|---|---|---|
| Addresses.PackOctets | src/ipAddress.cpp:723-733 | shifting and or-ing the octets gives the number they are the base-256 digits of |
| Addresses.UnpackOctets | src/ipAddress.cpp:735-745 | shifting and masking gives the base-256 digits of the word |
| Addresses.PackGroups | src/ipAddress.cpp:747-755 | shifting and or-ing the groups gives the two words whose base-65536 digits they are |
| Addresses.UnpackGroups | src/ipAddress.cpp:757-771 | shifting and masking gives the base-65536 digits of the two words |
| Addresses.UnpackOfPackV4 | src/ipAddress.cpp:723-745 | unpacking undoes packing on every V4 value |
| Addresses.PackOfUnpackV4 | src/ipAddress.cpp:723-745 | packing undoes unpacking on every 32-bit word |
| Addresses.UnpackOfPackV6 | src/ipAddress.cpp:747-771 | unpacking undoes packing on every V6 value |
| Addresses.PackOfUnpackV6 | src/ipAddress.cpp:747-771 | packing undoes unpacking on every pair of words |
| Addresses.NumberIsInjective | src/ipAddress.cpp:723-771 | the type and the packed number determine the address |
| Addresses.AddPackedIsExact | src/ipAddress.cpp:581-607 | the word-pair sum is the sum modulo 2^128 if and only if the low word overflows by at most one or the high word is all ones |
| Addresses.SubtractPackedIsExact | src/ipAddress.cpp:619-645 | the word-pair difference is the difference modulo 2^128 if and only if the low word underflows by at most one or the high word is zero |
| Addresses.AddPackedGives | src/ipAddress.cpp:581-607 | the number of the word-pair sum on every operand: an overflow of the low word by c clears it and adds c to the high word, and an overflow of that leaves what is over in the low word |
| Addresses.SubtractPackedGives | src/ipAddress.cpp:619-645 | the number of the word-pair difference on every operand |
| Addresses.AddGives | src/ipAddress.cpp:575-611 | the number of `+` on every valid address and every value, in range or not |
| Addresses.SubtractGives | src/ipAddress.cpp:613-649 | the number of `-` on every valid address and every value, in range or not |
| Addresses.AddIsExact | src/ipAddress.cpp:575-611 | on every address `+` keeps the type and is the sum modulo the size of the address space exactly in range; V4 is always in range |
| Addresses.SubtractIsExact | src/ipAddress.cpp:613-649 | the same for `-` |
| Addresses.AddOverflowByTwo | src/ipAddress.cpp:585-601 | an input on which the V6 sum is not the sum modulo 2^128 |
| Addresses.SubtractUnderflowByTwo | src/ipAddress.cpp:623-639 | an input on which the V6 difference is not the difference modulo 2^128 |
| Addresses.StepIsExact | src/ipAddress.cpp:651-683 | on every address `++` and `--` keep the type and are +1 and -1 modulo the size of the address space |
| Addresses.StepsUndoEachOther | src/ipAddress.cpp:651-683 | `++` and `--` undo each other on every address, in both orders |
| Addresses.IncrementByAdds | src/ipAddress.cpp:651-666 | n increments add n modulo the size of the address space |
| Addresses.OperatorsAreBitwise | src/ipAddress.cpp:685-721 | `&` and `\|` succeed exactly on two addresses of one type, keep the type, and act on each bit of the 32-bit or 128-bit number |
| Addresses.OrderIsNumeric | src/ipAddress.cpp:541-573 | lexicographic comparison of octets or groups is comparison of the packed numbers, and V4 comes before V6 |
| Addresses.OrderIsStrictAndTotal | src/ipAddress.cpp:541-573 | `<` is a strict total order on valid addresses and `<=` its reflexive closure |
| Addresses.NoAddressIsFirst | src/ipAddress.cpp:514-573 | equality is that of type and value; no address comes before every other, and only comparing it with itself throws |
| Addresses.IncrementGrows | src/ipAddress.cpp:651-666 | an address is less than its increment except the last of its type, for which it is not |
| Addresses.EmbeddedPrefixes | src/ipAddress.cpp:147-167 | the mask tests recognise exactly `::/96` and `::ffff:0:0/96` |
| Addresses.EmbeddingRoundTrip | src/ipAddress.cpp:346-368 | exactly V4 addresses embed, and the compatible and mapped getters (466-482) take the same address out again; neither kind is taken for the other |
| Addresses.EmbeddedNumber | src/ipAddress.cpp:346-368 | the compatible address has the number of the V4 address, and the mapped one that number plus 0xFFFF_0000_0000 |
| Addresses.EmbeddedAreBlocks | src/ipAddress.cpp:448-482 | exactly the V6 addresses below 2^32 have a compatible V4 address and exactly those of the mapped block a mapped one, with the number that they have in their block |
| Words.AndIsBitwise | src/ipAddress.cpp:695-696 | `&` on words, bit by bit |
| Words.OrIsBitwise | src/ipAddress.cpp:714-715 | `\|` on words, bit by bit |
| Words.NotIsBitwise | src/ipAddressInfo.cpp:93 | `~` on words, bit by bit |
| Words.ShrIsBitwise | src/ipAddress.cpp:739-741 | `>>` on words, bit by bit |
| Words.ShlMeans | src/ipAddress.cpp:727-729 | `<<` multiplies by a power of two modulo the size of the word |
| Words.BitMeans | src/ipAddress.cpp:806 | bit i is set if the number without its i low bits is odd |
| Digits.LexLessIsNumeric | src/ipAddress.cpp:550-552 | `std::array` comparison is comparison of positional numbers, in any base and length |
| Tokens.TokenizeString | src/ipAddress.cpp:67-111 | terminates and returns the pieces between separators, all of them or the non-empty ones in order |
| Tokens.JoinOfSplit | src/ipAddress.cpp:67-111 | with empty tokens kept, joining the tokens gives the input back, and no token contains the separator |
| Tokens.SplitOfJoin | src/ipAddress.cpp:67-111 | tokens without separators that are joined are found again |
| Numerals.NumeralIsNumeral | src/ipAddress.cpp:864 | a number that is written reads as that number and is in shortest lower-case form |
| Numerals.ShortestIsUnique | src/ipAddress.cpp:959 | no other shortest numeral denotes the number |
| Numerals.ConvertDecimal | src/ipAddress.cpp:113-143 | a decimal numeral with any zero padding converts to its number |
| Numerals.ConvertHexadecimal | src/ipAddress.cpp:334 | a hexadecimal numeral of either case and any padding converts to its number behind `0x` |
| Conversions.DigitsAreHexadecimal | src/ipAddress.cpp:958-959 | the digits that are written, and those of either case that are read, for each number below sixteen |
| Conversions.ConvertDecimalText | src/ipAddress.cpp:129-142 | on every text without a prefix: the six white-space characters, a sign and digits are read, the rest is ignored, a negative number wraps around at 2^16, and it fails exactly without digits or beyond 16 bits |
| Conversions.ConvertHexadecimalText | src/ipAddress.cpp:129-142 | on every text behind `0x` or `0X`: the digits are read, the rest is ignored, and it fails exactly without digits or beyond 16 bits |
| Conversions.ConvertBinaryText | src/ipAddress.cpp:119-128 | on every text behind `0b`: white space, a sign and binary digits must use up the text; the number is limited to 64 bits and cut down to 16; nothing at all is zero |
| Conversions.TextHasHead | src/ipAddress.cpp:113-143 | these leave no text out: every text is white space, a sign, digits and a tail |
| Numerals.ConvertSpaced | src/ipAddress.cpp:129-142 | a decimal numeral of a 16-bit number converts to its number whatever spaces are around it, and with a minus sign to the number modulo 2^16 |
| Packing.PlaceIsConcatenation | src/ipAddress.cpp:312-336 | with at most eight groups no slot is written twice: the slots are the left groups, zeros, the right groups |
| Packing.PlaceMayMerge | src/ipAddress.cpp:267 | with nine groups different texts give the same address |
| Packing.SlotBits | src/ipAddress.cpp:234-238 | a bit of a slot is set exactly if it is set in a group that either side writes there |
| Packing.WholePass | src/ipAddress.cpp:312-336 | for all tokens that pass the checks, the loop with its 32-bit position and its wrapped zero-run length places the groups around the empty token and ends at position 8, or fails exactly when they do not fit |
| Packing.QuadPosition | src/ipAddress.cpp:324-326 | the assertion holds: a dotted quad in the last place always goes into the last two slots |
| Parser.ParseIPV4 | src/ipAddress.cpp:196-217 | accepts exactly four non-empty dot-separated tokens that convert to numbers of at most 255, signs included, and returns these |
| Parser.PackValue | src/ipAddress.cpp:223-240 | or-s one group into one slot of the packed address and leaves the others, and refuses exactly the indices from 8 on |
| Parser.ScanTokens | src/ipAddress.cpp:256-287 | fails exactly if a token before the last has a dot; otherwise finds how many tokens are empty, where, and the length of the zero run in 64 bits |
| Parser.PackTokens | src/ipAddress.cpp:312-336 | the loop fails exactly when the groups cannot be placed, and otherwise or-s together the packed form of the placed groups with the position ending at 8; the assertion at line 326 is proved on the way |
| Parser.ParseIPV6 | src/ipAddress.cpp:256-337 | from the trimmed tokens on, accepts exactly one empty token or eight groups, and gives the placed groups |
| Parser.ParseAddress | src/ipAddress.cpp:194-344 | the string constructor computes the meaning `ParseText` of every text but `:` |
| TextForms.ParserIsComplete | src/ipAddress.cpp:194-344 | every text form that section 2.2 of RFC 4291 allows for a V6 address parses to exactly that address; also with more padding, and with `::` for no group |
| TextForms.RfcTextIsParsed | src/ipAddress.cpp:194-344 | so do the forms with one to four digits in a group and `::` for one or more groups, as RFC 4291 has them |
| TextForms.ParserIsCompleteV4 | src/ipAddress.cpp:194-217 | dotted decimal text with any zero padding parses to its V4 address |
| TextForms.SpacesAndSigns | tests/src/ipAddress_tests.cpp:203-223 | dotted decimal text with spaces around the numbers parses to its V4 address, also if the numbers have signs |
| TextForms.ParseFullForm | src/ipAddress.cpp:294-336 | eight groups, or six and a dotted quad, parse to their address |
| TextForms.ParseCompressedForm | src/ipAddress.cpp:242-268 | a run of zero groups may be replaced by `::` at the start, in the middle or at the end, with or without a dotted quad |
| TextForms.CompressedTextMeaning | src/ipAddress.cpp:242-336 | a text with one `::` is accepted if and only if at most eight groups stand on each side, and what its address then is, also with more than eight in all |
| TextForms.NineGroupsMerge | src/ipAddress.cpp:267 | an accepted text with nine groups, and its address |
| Acceptance.AcceptedExactly | src/ipAddress.cpp:194-344 | a text other than `:` is read as a V6 address if and only if it is eight groups, or groups around a gap with at most eight on each side, where the gap is `::` or a lone colon at either end; and then as the address that these make up |
| Acceptance.LoneColonIsAccepted | src/ipAddress.cpp:242-267 | a lone colon at the start or at the end is read as `::`, whatever the tokens are |
| Acceptance.DottedToken | src/ipAddress.cpp:324-332 | a token with a dot gives the two groups of the V4 address that it is read as, if it is read as one |
| Acceptance.DotOnlyInLast | src/ipAddress.cpp:270-286 | a text with a dot in any token but the last is refused |
| PlainTexts.GroupToken | src/ipAddress.cpp:333-335 | any token without a dot is read as the hexadecimal digits that it begins with, and fails exactly without digits or beyond 16 bits |
| PlainTexts.RfcIsWellFormed | src/ipAddress.cpp:242-310 | no form of RFC 4291 begins or ends in a lone colon or has `::` beside more than seven groups |
| PlainTexts.AcceptedRfcExactly | src/ipAddress.cpp:194-344 | of the accepted V6 texts whose tokens are plain numerals, exactly those without a lone colon and with at most seven groups beside `::` are forms of RFC 4291 |
| PlainTexts.AcceptedV4Exactly | src/ipAddress.cpp:194-217 | a text other than `:` is read as a V4 address if and only if the non-empty pieces between its dots are four numbers of at most 255, and then as these |
| PlainTexts.AcceptedDottedExactly | src/ipAddress.cpp:194-217 | of the accepted V4 texts whose pieces are plain numerals, exactly those without an empty piece are dotted decimal |
| PlainTexts.RepeatedDots | src/ipAddress.cpp:78-99 | repeated dots and dots at the ends are read like single dots between the numbers |
| Printer.BuildIPV4String | src/ipAddress.cpp:854-868 | the four decimal numerals joined by dots |
| Printer.FindLongestZeroRun | src/ipAddress.cpp:888-924 | the first pass finds the shortening that section 4.2 of RFC 5952 asks for |
| Printer.ShortenedIsRight | src/ipAddress.cpp:888-924 | that is the longest run of zero groups, the first of several, and no run of one |
| Printer.ShortenedIsUnique | src/ipAddress.cpp:888-924 | no other choice meets section 4.2 of RFC 5952 |
| Printer.WriteGroups | src/ipAddress.cpp:926-962 | the second pass writes the groups before and after the run, with `::` for the run and a dotted quad at the end if that is asked for and the run leaves room |
| Printer.BuildIPV6String | src/ipAddress.cpp:875-963 | both shortcuts and the general case give the text of the general algorithm |
| Printer.ZeroAddress | src/ipAddress.cpp:877-881 | the shortcut `::` is what the general algorithm prints |
| Printer.LoopbackAddress | src/ipAddress.cpp:882-886 | the shortcut `::1` is what the general algorithm prints |
| RoundTrip.PrintedIsText | src/ipAddress.cpp:875-963 | what is printed is one of the forms of RFC 4291 for the address, with one to four digits in a group and `::` for one or more groups |
| RoundTrip.ParseOfText | src/ipAddress.cpp:194-344 | for every V4 and V6 address, parsing what is printed (854-963) gives the same type and value |
| RoundTrip.TextIsInjective | src/ipAddress.cpp:854-963 | two addresses print the same if and only if they are the same |
| RoundTrip.PrintingNormalizes | src/ipAddress.cpp:194-344 | parsing, printing and parsing again changes nothing |
| RoundTrip.CanonicalIsPrinted | src/ipAddress.cpp:888-962 | that a text is canonical in the sense of sections 4.1 to 4.3 of RFC 5952 if and only if it is the printed one holds for an address if and only if that is not printed with a dotted quad |
| RoundTrip.CanonicalText | src/ipAddress.cpp:888-962 | for every address exactly one text is canonical: the one that the second pass writes without a dotted quad |
| RoundTrip.EmbeddedText | src/ipAddress.cpp:951-957 | how mapped and compatible addresses are printed (section 5 of RFC 5952), and the exact exception |
| RoundTrip.CanonicalIsPrintedV4 | src/ipAddress.cpp:854-868 | a text is four decimal numbers without leading zeros if and only if it is the printed one |
| RoundTrip.EmbeddedIsPrinted | src/ipAddress.cpp:951-957 | a V4 address is printed as it is inside its mapped address, and inside its compatible one from 0.1.0.0 on |
| RoundTrip.TextLength | src/ipAddress.cpp:991-997 | no text is longer than 39 characters, so nothing is ever truncated |
| RoundTrip.TextHasNoNul | src/ipAddress.cpp:998-999 | no text contains the terminator |
| IPAddressObject.TextInTerminated | src/ipAddress.cpp:509-512 | bytes behind the terminator do not matter |
| IPAddressObject.IPAddress.BuildIPString | src/ipAddress.cpp:968-1000 | whatever the buffer holds, afterwards it reads as the text of the value, or as that of an object without one; the truncation branch is proved dead |
| IPAddressObject.IPAddress.CopyToBuffer | src/ipAddress.cpp:998-999 | the text and its terminator are at the start of the buffer |
| IPAddressObject.IPAddress.constructor | src/ipAddress.cpp:169-172 | the default object holds no address and agrees with its text |
| IPAddressObject.IPAddress.FromV4 | src/ipAddress.cpp:174-177 | the object holds the octets and the buffer their text |
| IPAddressObject.IPAddress.FromV6 | src/ipAddress.cpp:179-182 | the object holds the groups and the buffer their text |
| IPAddressObject.IPAddress.FromPackedV4 | src/ipAddress.cpp:184-187 | the object holds the unpacked word and the buffer its text |
| IPAddressObject.IPAddress.FromPackedV6 | src/ipAddress.cpp:189-192 | the object holds the unpacked words and the buffer their text |
| IPAddressObject.IPAddress.FromString | src/ipAddress.cpp:194-344 | there is an object if and only if the text denotes an address, and it holds that address with its text |
| IPAddressObject.IPAddress.FromCompatibleV4 | src/ipAddress.cpp:346-356 | succeeds exactly on V4 addresses, with the compatible address and its text |
| IPAddressObject.IPAddress.FromMappedV4 | src/ipAddress.cpp:358-368 | succeeds exactly on V4 addresses, with the mapped address and its text |
| IPAddressObject.IPAddress.SetValueV4 | src/ipAddress.cpp:372-379 | any object takes the value, and its text with it |
| IPAddressObject.IPAddress.SetValueV6 | src/ipAddress.cpp:381-388 | any object takes the value, and its text with it |
| IPAddressObject.IPAddress.SetValuePackedV4 | src/ipAddress.cpp:390-393 | any object takes the unpacked value, and its text with it |
| IPAddressObject.IPAddress.SetValuePackedV6 | src/ipAddress.cpp:395-398 | any object takes the unpacked value, and its text with it |
| IPAddressObject.IPAddress.ToString | src/ipAddress.cpp:509-512 | the buffer up to its terminator is a fresh print of the value |
| IPAddressObject.IPAddress.Plus | src/ipAddress.cpp:575-611 | a new object with the sum and its text; the operand is not changed |
| IPAddressObject.IPAddress.Minus | src/ipAddress.cpp:613-649 | a new object with the difference and its text; the operand is not changed |
| IPAddressObject.IPAddress.Assign | include/la/networkInterfaceHelper/networkInterfaceHelper.hpp:233 | the value and the text are copied, also from the object itself |
| IPAddressObject.IPAddress.Increment | src/ipAddress.cpp:651-666 | the object moves to the number plus one modulo the size, with its text; without a value it fails and nothing changes |
| IPAddressObject.IPAddress.Decrement | src/ipAddress.cpp:668-683 | the object moves to the number minus one modulo the size, with its text; without a value it fails and nothing changes |
| Netmasks.MaskV4Value | src/networkInterfaceHelper_common.hpp:108-120 | the mask of n bits is the word whose n highest bits are set, for every n, and all of them from 32 on |
| Netmasks.ValidateNetmaskV4 | src/networkInterfaceHelper_common.hpp:141-169 | the 32-step scan accepts exactly the masks of the prefixes 1 to 32 |
| Netmasks.CountOnes | src/ipAddress.cpp:801-816 | counts the set bits from the highest down |
| Netmasks.PrefixLengthFromPackedV6 | src/ipAddress.cpp:793-829 | the number of leading set bits of the two words |
| Netmasks.PrefixOfMask | src/ipAddress.cpp:773-829 | the prefix length of the mask made for n is n, for every n from 0 to 128 |
| Netmasks.PrefixLengthCounts | src/ipAddress.cpp:793-829 | for every pair of words, mask or not: the prefix length counts the bits that are set from the highest of the 128 down to the first that is not |
| Netmasks.PrefixIsWitness | src/networkInterfaceHelper_common.hpp:171-181 | converting a mask to a prefix length and back gives it again exactly if it is the mask of some prefix |
| Netmasks.ValidateNetmaskV6 | src/networkInterfaceHelper_common.hpp:171-181 | accepts exactly the masks of the prefixes 0 to 128 |
| Subnets.ValidExactlyWithPrefix | src/ipAddressInfo.cpp:47-142 | which of the operations throw, for every pair of address and netmask |
| Subnets.BaseIsFloor | src/ipAddressInfo.cpp:70-83 | the base address is the address rounded down to a multiple of the subnet size, for V4 and V6 |
| Subnets.BaseIsIdempotent | src/ipAddressInfo.cpp:70-83 | the base address of the base address is itself |
| Subnets.BroadcastIsLast | src/ipAddressInfo.cpp:85-100 | the broadcast address is the base plus the subnet size minus one |
| Subnets.SubnetIsInterval | src/ipAddressInfo.cpp:70-100 | a V4 address has the same base if and only if it lies between base and broadcast |
| Subnets.SubnetIsIntervalV6 | src/ipAddressInfo.cpp:70-83 | a V6 address has the same base if and only if it is one of the 2^(128-n) from the base on |
| Subnets.PrivateIsContainment | src/ipAddressInfo.cpp:102-142 | the private test holds if and only if the whole subnet lies inside one block of section 3 of RFC 1918 |
| Subnets.InfoOrder | src/ipAddressInfo.cpp:154-170 | when comparing throws, and that otherwise `<` is a strict total order with `<=` its reflexive closure |
| Subnets.InfoOrderIsNumeric | src/ipAddressInfo.cpp:154-170 | the order is that of the numbers of the addresses, and for one address of those of the netmasks |
| MacAddresses.MacAddressToString | src/networkInterfaceHelper_common.cpp:490-525 | the text that `MacTextAt` describes |
| MacAddresses.MacTextAt | src/networkInterfaceHelper_common.cpp:490-525 | the text character by character: 17 characters, with the two digits of each octet in the chosen case and the separator between any two; 12 characters without separators for NUL |
| MacAddresses.WithoutKeeps | src/networkInterfaceHelper_common.cpp:530-533 | erasing the separator erases all of it and nothing else |
| MacAddresses.ReadMacText | src/networkInterfaceHelper_common.cpp:527-554 | what any text is read as once the separators are erased: white space, a sign, a prefix and digits as a number of 64 bits of which the six low octets remain, failing exactly without digits or beyond 64 bits |
| MacAddresses.MacRoundTrip | src/networkInterfaceHelper_common.cpp:490-554 | reading what was written gives the address back, with any separator that is not a digit of the written case |
| MacAddresses.GoodSeparators | src/networkInterfaceHelper_common.cpp:490-554 | those separators are exactly the ones with which every MAC address is read back |
| MacAddresses.OctetsOfIsDigits | src/networkInterfaceHelper_common.cpp:545-551 | the shifts and masks give the six low base-256 digits |
| InterfaceEvents.PictureFollowsRefresh | src/networkInterfaceHelper_common.cpp:248-306 | in any order of the iterations, the events of a refresh turn the picture of the old interfaces into that of the new ones |
| InterfaceEvents.PictureFromNothing | src/networkInterfaceHelper_common.cpp:184-195 | the replay of a registration gives the whole picture |
| InterfaceEvents.RefreshIsExact | src/networkInterfaceHelper_common.cpp:248-306 | one Removed per vanished name, one Added per new name, one change per differing monitored field of a kept name, nothing else and nothing twice |
| InterfaceEvents.SilentRefresh | src/networkInterfaceHelper_common.cpp:248-306 | a refresh sends nothing if and only if names and monitored fields are the same |
| InterfaceEvents.RefreshInOrder | src/networkInterfaceHelper_common.cpp:257-302 | removals come first, then additions, then changes, and the changes of an interface in the order of the comparisons |
| InterfaceEvents.ExpectedMeans | src/networkInterfaceHelper_common.cpp:257-302 | what the exact events are, field by field |
| InterfaceEvents.PicturesMean | src/networkInterfaceHelper_common.cpp:275-302 | what an observer can rebuild: which interfaces there are, and the enabled and connected state, alias, address infos and gateways of each |
| InterfaceEvents.UpdateIsRefresh | src/networkInterfaceHelper_common.cpp:308-425 | each fine-grained handler sends exactly what a full refresh with the updated list may send |
| InterfaceEvents.ApplyMeans | src/networkInterfaceHelper_common.cpp:308-425 | what an update does to the list: only the named interface changes, a known one is not added again, and one field gets its value while all else stays |
| InterfaceEvents.ApplyKeepsKeys | src/networkInterfaceHelper_common.cpp:308-425 | an update keeps names and identifiers in step |
| RegistryMachine.ObserversMirror | src/networkInterfaceHelper_common.cpp:157-449 | in every run, every observer rebuilds exactly the names and monitored fields of the registry from the events since its registration |
| RegistryMachine.ObserversAgree | src/networkInterfaceHelper_common.cpp:157-449 | early and late observers agree at every point of every run |
| RegistryMachine.NextMirrors | src/networkInterfaceHelper_common.cpp:157-449 | every single call keeps that |
| RegistryMachine.MirrorNeedsKeys | src/networkInterfaceHelper_common.cpp:258-289 | with a name that is not the identifier it fails: a concrete list |
| RegistryMachine.NotifyIsRefresh | src/networkInterfaceHelper_common.cpp:308-425 | as steps of the registry, an incremental update and a full refresh with the updated list have the same outcomes |
| RegistryMachine.LogsGrow | src/networkInterfaceHelper_common.cpp:428-449 | an observer keeps what it got, and all observers get the same events in the same order |
| RegistryMachine.RegistrationReplays | src/networkInterfaceHelper_common.cpp:184-195 | a new observer is told of every interface once and of nothing else |
| RegistryMachine.PollTakesOver | src/networkInterfaceHelper_unix.cpp:235-248 | a poll takes over the list that it finds if there are observers, and does nothing otherwise |
| RegistryMachine.PollSends | src/networkInterfaceHelper_unix.cpp:235-248 | a poll sends every observer each difference between the lists once and nothing else, removals first |
| RegistryMachine.QueryTakesOver | src/networkInterfaceHelper_common.cpp:113-155 | a query answers from the list as it is, or if none was enumerated from the one that it finds, which it takes over |
| RegistryMachine.RegisterAdds | src/networkInterfaceHelper_common.cpp:157-203 | registration adds the observer unless it is null, treats the list like a query, starts the thread exactly for the first one, and leaves other observers and repeated registrations alone |
| RegistryMachine.RegisterReplays | src/networkInterfaceHelper_common.cpp:157-203 | after a registration, with or without an enumeration, the new observer was told of every interface of the list once and of nothing else |
| RegistryMachine.FirstAnswerSends | src/networkInterfaceHelper_unix.cpp:213-224 | the first query or registration sends every observer each difference between the lists once and nothing else |
| RegistryMachine.UnregisterRemoves | src/networkInterfaceHelper_common.cpp:205-237 | an unregistered observer is gone; the others, what they got and the list stay, and the thread ends exactly with the last one |
| RegistryMachine.PollerLifecycle | src/networkInterfaceHelper_unix.cpp:200-260 | in every run of calls made one at a time: starts and stops alternate, the thread is joinable exactly while there are observers, no start overwrites a joinable thread, and every query or replay follows an enumeration since the last stop |
| RegistryMachine.NextPolls | src/networkInterfaceHelper_unix.cpp:200-260 | every single call keeps that |
| RegistryMachine.RestartEnumerates | tests/src/networkInterfaceHelper_tests.cpp:58-62 | after the last observer is gone, the next query or registration answers from a new enumeration |
| RegistryMachine.FreshMeans | src/networkInterfaceHelper_unix.cpp:212-224 | what it means for the list to be fresh: an enumeration with no stop after it |
| Handover.InStepAfter | src/networkInterfaceHelper_common.cpp:198-236 | when calls overlap, a change of the observers keeps thread, pending notifications and observers in step, and telling the delegate does if and only if it is not told to start over a joinable thread or to stop without one |
| Handover.SafeExactly | src/networkInterfaceHelper_common.cpp:198-236 | once everything is told, in whatever order, no thread was overwritten and it runs exactly if there are observers, if and only if everything told did fit at the time |
| Handover.ConsistentAfter | src/networkInterfaceHelper_common.cpp:198-236 | that the pending notifications take turns is kept by the changes of the observers, and by telling the delegate if and only if it is told the oldest one |
| Handover.InOrderIsSafe | src/networkInterfaceHelper_common.cpp:198-236 | told in order, however the calls overlap, everything fits: the thread is never overwritten and in the end is joinable exactly if there are observers |
| Handover.OutOfOrderStrands | src/networkInterfaceHelper_common.cpp:198-236 | told out of order, a thread can be left without observers |
| Handover.StrandedAborts | src/networkInterfaceHelper_unix.cpp:227-230 | from there the next registration assigns over a joinable thread |
| Handover.AfterMeans | src/networkInterfaceHelper_common.cpp:173-236 | entering and leaving change the set of observers by the one observer, telling changes the thread by the one notification |
| Registry.NetworkInterfaceHelper.constructor | src/networkInterfaceHelper_common.cpp:476-480 | the objects start in the initial state of the machine |
| Registry.NetworkInterfaceHelper.EnumerateInterfaces | src/networkInterfaceHelper_common.cpp:113-138 | a query step; the handler gets every interface once, and a null handler does nothing |
| Registry.NetworkInterfaceHelper.GetInterfaceByName | src/networkInterfaceHelper_common.cpp:140-155 | a query step; the interface of that name, or an exception exactly if there is none |
| Registry.NetworkInterfaceHelper.RegisterObserver | src/networkInterfaceHelper_common.cpp:157-203 | a registration step, with wait, replay and start of the thread; null and known observers change nothing |
| Registry.NetworkInterfaceHelper.UnregisterObserver | src/networkInterfaceHelper_common.cpp:205-237 | an unregistration step, with the stop of the thread; null and unknown observers change nothing |
| Registry.NetworkInterfaceHelper.OnNewInterfacesList | src/networkInterfaceHelper_common.cpp:248-306 | the three loops send the events of a refresh to every observer and the new list replaces the old one |
| Registry.NetworkInterfaceHelper.OnInterfaceAdded | src/networkInterfaceHelper_common.cpp:308-320 | a notification step of the machine |
| Registry.NetworkInterfaceHelper.OnInterfaceRemoved | src/networkInterfaceHelper_common.cpp:322-335 | a notification step of the machine |
| Registry.NetworkInterfaceHelper.OnEnabledStateChanged | src/networkInterfaceHelper_common.cpp:337-353 | a notification step of the machine |
| Registry.NetworkInterfaceHelper.OnConnectedStateChanged | src/networkInterfaceHelper_common.cpp:355-371 | a notification step of the machine |
| Registry.NetworkInterfaceHelper.OnAliasChanged | src/networkInterfaceHelper_common.cpp:373-389 | a notification step of the machine |
| Registry.NetworkInterfaceHelper.OnIPAddressInfosChanged | src/networkInterfaceHelper_common.cpp:391-407 | a notification step of the machine |
| Registry.NetworkInterfaceHelper.OnGatewaysChanged | src/networkInterfaceHelper_common.cpp:409-425 | a notification step of the machine |
| Registry.NetworkInterfaceHelper.NotifyObservers | src/networkInterfaceHelper_common.cpp:428-449 | every observer gets the event once, in whatever order they are called |
| Registry.NetworkInterfaceHelper.NotifyDifferences | src/networkInterfaceHelper_common.cpp:281-300 | the five comparisons send the changed fields in their order |
| Registry.OsDependentDelegate.WaitForFirstEnumeration | src/networkInterfaceHelper_unix.cpp:213-224 | enumerates and refreshes the registry unless the flag says that this was done, and sets the flag |
| Registry.OsDependentDelegate.OnFirstObserverRegistered | src/networkInterfaceHelper_unix.cpp:227-254 | starts the thread; callers must have proved that none is joinable |
| Registry.OsDependentDelegate.OnLastObserverUnregistered | src/networkInterfaceHelper_unix.cpp:257-260 | asks the thread to end; if one was joinable, it is gone and the next query has to enumerate again |
| Registry.OsDependentDelegate.TerminateObserverThread | src/networkInterfaceHelper_unix.cpp:200-209 | the thread is gone, and the enumeration is forgotten exactly if there was one |
| Registry.OsDependentDelegate.PollingTurn | src/networkInterfaceHelper_unix.cpp:235-248 | a polling step of the machine |

## Left out

- Texts of exceptions: every `std::invalid_argument` is one result.
- Number reading: locales, and prefixes that are repeated. A group such as `0x1` gets a second `0x` put before
  it by the parser (`src/ipAddress.cpp:334`); standard libraries differ in what they then read, and the model
  reads the zero.
- The text `:`: on it the constructor reads before the start of its token list (`src/ipAddress.cpp:250`), so it
  is outside the domain of `ParseText`, `ParseAddress` and `FromString`.
- Texts of 2^32 - 1 characters or more: `ParseAddress` and `FromString` exclude them because the loops count
  tokens in 32 bits.
- A NUL separator with empty tokens dropped: the tokenizer would run past the end of the text.
- Prefix lengths above 128: `packedV6FromPrefixLength` shifts by 64 or more there.
- `makePackedMaskV6` (`src/networkInterfaceHelper_common.hpp:122-139`): it may shift by 64 and is not used by
  the validators.
- The C++20 branch of `prefixLengthFromPackedV6` (`std::countl_one`): only the loop is modelled.
- `hash`, the plain getters and the conversion operators of `IPAddress`: easy.
- `isMacAddressValid`: easy.
- Enumeration of interfaces by the operating system: every list is a parameter. The mirror theorems assume
  that lists are keyed by the `id` fields, as the enumerations do, and `MirrorNeedsKeys` shows the need.
- Threads: calls are steps one at a time, except for the handover of notifications in `Handover`. A poll that is
  under way while the thread is joined, and the data race on `_shouldTerminate`, are not modelled.
- Callbacks that call back into the registry, and exceptions that callbacks throw and the registry swallows.
- The polling interval and the sleep: `PollingTurn` is a turn in which a check is due.
- The delegates for Windows and macOS, the destructors, the C and SWIG bindings, the examples.
