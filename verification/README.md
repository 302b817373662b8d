# CxxBus, modelled and verified in Dafny

CxxBus is a D-Bus library for C++. This project models its wire codec and what is built
on the codec, and proves that what one side writes is what the other side reads.

Verify everything with `dafny verify dfyconfig.toml`.

## How it is organised

| file | content |
|---|---|
| `Bytes.dfy`, `Options.dfy` | little-endian numbers, padding by absolute position, "buffer `b` holds `s` at `p`" |
| `ObjectPaths.dfy`, `InterfaceNames.dfy`, `Types.dfy`, `Signatures.dfy` | validation of paths and names; types, values and typing; signatures and type codes |
| `Encoding.dfy` | the wire format as a function of a value **and of the position it starts at**, what marshalling throws, and relocation |
| `WireFormat.dfy` | where every byte of an encoding stands, in literals: the layout by the characters of the signature |
| `Marshaller.dfy` | class `Buffer`: the growing byte vector, back-patched array lengths, dictionaries built in a scratch buffer |
| `Decoding.dfy` | the typed decoder and the flat signature interpreter as functions of buffer and cursor |
| `Readings.dfy` | what comes of arbitrary bytes, whoever wrote them |
| `Unmarshaller.dfy` | class `Reader`: one cursor, loops driven by byte counts, the interpreter loop that splices nested signatures |
| `RoundTrip.dfy`, `Walking.dfy`, `Variants.dfy` | decoding undoes encoding; the interpreter stops where the encoding stops; variants from creation to `UnmarshalData` |
| `VariantWalks.dfy`, `VariantCourses.dfy` | outside that fragment: the way of the interpreter through a payload of any type, and exactly which payloads are still delimited |
| `VariantSlices.dfy` | which of the payloads that are delimited give back what was written |
| `Bodies.dfy` | the typed entry point with its signature checks |
| `OutgoingMessages.dfy`, `Creation.dfy` | header field selection and serialisation; created messages in literals |
| `IncomingMessages.dfy`, `Framing.dfy` | parsing of any header, ours or not; the read loop |
| `Deliveries.dfy`, `Conversations.dfy` | sender's arguments to receiver's arguments through all of the above; a call and its answer, through the reply table as well |
| `ReplyTable.dfy`, `ReplyRouting.dfy` | class `Connection` with its slots and fallback map; every interleaving of send, write, deliver and collect |
| `NameCache.dfy` | class `DBusNameCache` and owner-change histories |
| `MatchRules.dfy`, `ArgumentWalk.dfy` | argument and argument-path conditions; the untyped walk over a body that feeds them |

Code that works on a buffer, a cursor or a table is a class or a method with loops, proved
against a function (`Enc`, `Dec`, `Walk`, `Registered`, `Posted`, ...). The properties of
the library are then proved about those functions. Numbers are bit patterns, a double is
eight opaque bytes, and texts are byte sequences. A variant that is written is a typed value
(`Boxed`); one that is read is a signature and a slice of bytes (`Slice`), so `Received` says
what a reader gets for a value: the value itself when its type holds no variant.

What the functions say is pinned down in literals: the bytes of every value (`WireFormat`), the characters of every
signature, the fields and the first sixteen bytes of every message (`Creation`), the codes that a receiver looks
up (`HeaderIsUnderstood`), the 56 slots of the reply table.

Limits that the wire format has and the code does not check are explicit: `Accepts` is what the
marshaller accepts, `Readable` what the reader can take back, buffers are below 2^32 bytes.

## What turned out to be false, and exactly when it holds

Each comes with a lemma at a concrete input, or at a whole family of them.

- Arrays of numbers are written at any size but read back only below 64 MiB
  (`NumberArrayComesBackIffBelow64MiB`; 64 MiB of zero bytes: `HugeArrayIsRefused`).
- A variant's payload is decoded from position 0 although it was written elsewhere. Payload types here are
  basic types, variants, arrays whose element is one type code, and structs of these, at any nesting; no
  value of another type is walkable as a whole (`WalkableIsPayload`, `PayloadIsWalkable`). Read back from the
  bytes of a buffer, every value of a payload type comes back exactly when, for a variant, an array of variants
  or an array of 8-byte numbers, the payload started at a multiple of 8 (`EveryValueComesBackIff`). Value by value:
  - an array of 8-byte numbers that is not copied comes back exactly when it started at a multiple of 8
    (`WideArrayComesBackIffAligned`; one number at 4: `ShortWideArrayIsLost`); one that is copied, also when
    it is empty (`OwnedWideArrayComesBackIff`; `EmptyWideArrayDependsOnStorage`);
  - a variant in a variant gives back every number of w bytes exactly when it started at a multiple of w
    (`NestedNumbersComeBackIffAligned`); the variant of the variant of the 32-bit number 1, marshalled at
    position 0, is read as 256, without an error (`NestedArrives`, `NestedOneReadsAs256`).
- The reader finds the end of a variant's payload by a flat walk over its signature. For every type and value
  the walk goes along a course that is computed from the value alone: up to the first array of many-code
  elements or the first dictionary, from where it takes the codes left for what follows (`WalkKeepsToCourse`;
  `WalkableStaysOnCourse`). The payload is delimited correctly exactly when the course ends where the payload does
  with only closing codes left, or leaves it earlier and the codes left happen to read on to its end
  (`PayloadIsDelimitedIff`). In closed form:
  - an array is delimited correctly exactly when its element is one type code; or is a dictionary, the elements
    take a multiple of 8 bytes and only closing codes stand behind the element's first closing brace; or the codes
    there happen to read on to the same end (`ArrayPayloadIsWalkedIff`, `ArrayOfDictsIsWalkedIffWholeEights`). The
    empty a(y) is missed, the empty aa{yy} is not (`EmptyArrayOfStructsIsMissed`, `EmptyArrayOfDictsIsHit`);
  - a dictionary exactly when writer and reader pad alike, the payload ends at a multiple of 8 and only closing
    codes stand behind its first closing brace; or, if they do not pad alike, when the codes there happen to read
    from the writer's start to its end (`DictPayloadIsWalkedIff`). From cursor 1, the empty a{yy} is missed and the
    empty a{s(a{sv}x)} hit by chance (`MisalignedDictIsMissed`, `MisalignedDictIsHitByChance`);
  - a struct whose last field is a dictionary, the others walkable and only closing codes behind the brace, exactly
    when it ends at a multiple of 8 (`LastDictIsDelimitedIff`). The variant of the struct of {1: 1}, as (a{yy}), at
    position 0, is accepted and written in 26 bytes, and cannot be read (`StructOfDictIsRefused`).

  Where the codes left are not only closing codes, which takes a dictionary inside the value of a dictionary or
  fields behind the one where the course ends, "happen to" is a reduction: the walk of those codes, from the end
  of the course, over the bytes there.
- A text of up to 31 bytes put into a variant is cut at its first NUL instead of being refused
  (`TextSurvivesCreationIffNoNul`; "a", NUL, "b": `ShortTextIsCut`). Header fields are variants, so the same
  holds for a member name (`MemberComesBackIffNoNul`; a call of "a", NUL, "b" arrives as one of "a": `MemberIsCut`).
- An interface or error name is documented as two or more non-empty elements separated by dots, not longer
  than 255 bytes. The test agrees on exactly the texts that are neither shorter than that with a dot and an
  empty element, nor names of 255 bytes (`InterfaceNameTestIsExactIff`; "." passes: `DotPasses`).
- An array's length may end inside an element, which is then read whole and accepted (`LengthMayEndInsideElement`).
- A path-namespace condition is documented to accept the path itself and what lies below it; the
  code accepts every path that contains it. The two agree on all paths only for the root
  (`NamespaceTestIsExactIffRoot`; "/ab" passes for one in "/a": `NamespacesApart`).
- A first-argument namespace is tested as a prefix. It goes wrong on exactly the names that go on behind the
  namespace without a dot (`ArgNamespaceTestIsExactIff`).
- The walk that collects arguments for match rules, on bodies of basic arguments, arrays of single-code elements
  and dictionaries, finds the string at index j under its own index, whatever the values, exactly when no
  dictionary precedes it (`FoundUnderOwnIndexIff`), because a dictionary takes two turns of its loop
  (`DictTakesTwoTurns`). Other arguments lead it astray without any dictionary:
  - of a struct of two or more numbers the last is never read (`LastFieldIsLeft`); the cursor still meets the end of
    the struct exactly when two positions computed from the widths agree, which they never do for two numbers, and do
    for four of 1, 1, 2 and 2 bytes (`StructIsSkippedIff`). Behind a struct of one number the next code is dropped
    with its argument, or the walk fails (`CodeBehindIsDropped`): from (y)s nothing is collected and no error
    is raised (`StringBehindStructIsLost`);
  - of an array's element only the first code is passed; the others are taken for arguments that follow
    (`ElementCodesAreLeft`, `DictElementIsLeft`), so that an aas in last place has the walk read behind the end
    (`ArraysOfStringArraysAreOverrun`);
  - a variant's signature is read as if its first code were its length, so that the walk fails on every variant
    whose signature does not happen to have that length (`VariantSignatureIsReadIff`, `VariantArgumentFails`).

Where code and comments disagree, the model follows the code; so the destination of a received header is
filled from its SENDER field (`src/IncomingDBusMessage.cpp:185-187`).

## Model

| member | source | states |
|---|---|---|
| Bytes.PadLenIsLeast | src/DBus.h:49-74 | padding reaches the least multiple of the alignment that is not below the position |
| Bytes.LEIsLittleEndian | src/DBus.h:499-515 | byte i of a written number is its digit of weight 256^i, least significant first |
| Bytes.FromLEIsWeighted | src/DBus.h:805-835 | a number that is read is the sum of its bytes, each with weight 256^i |
| ObjectPaths.Validate | src/DBusTypes.cpp:82-124 | the scan accepts a path iff it is "/" or one or more "/" each followed by a non-empty run of `[A-Za-z0-9_]`; when the empty and the slashless are told apart; and that of other faults the leftmost is reported |
| ObjectPaths.ValidPathIsGrammatical | src/DBusTypes.cpp:84-90 | the character-by-character test accepts exactly the texts of that grammar |
| ObjectPaths.CharactersInLiterals | src/DBusTypes.cpp:111-120 | an element's characters are exactly A-Z, a-z, 0-9 and _ |
| InterfaceNames.InterfaceNameTestIsExactIff | src/DBusTypes.cpp:65-78 | the test agrees with its comment on a text iff it is neither a dotted text below 255 bytes with an empty element nor a documented name of 255 bytes |
| InterfaceNames.DotPasses | src/DBusTypes.cpp:65-78 | a single dot passes |
| Signatures.SignaturesOfBasicTypes | src/DBusHelpers.h:151-213 | the character of every basic type and of the variant |
| Signatures.SignaturesOfContainers | src/DBusHelpers.h:202-220 | a, ( ) and a{ } around the signatures of what is inside |
| Signatures.SignaturesOfLists | src/DBusHelpers.h:118-149 | lists are spelled one type after the other |
| Signatures.CodesAreTabulated | src/DBusHelpers.cpp:33-157 | which characters are type codes, numbers and texts, and the alignment of each |
| Signatures.AlignmentTablesAgree | src/DBusHelpers.cpp:129-157 | the reader's alignment by type code and the writer's alignment by type agree on every type but dictionaries |
| Signatures.SigIsUniquelyReadable | src/DBusHelpers.h:151-225 | whatever follows it, the front of a text spells at most one complete type |
| Signatures.SigsAreUniquelyReadable | src/DBusHelpers.h:118-149 | the same for lists of types, up to a closing bracket or the end |
| Signatures.SigIsInjectiveAndPrefixFree | src/DBusHelpers.h:151-225 | of the signatures spelled as above, equal ones mean equal types, and none begins another |
| Signatures.SigsAreInjective | src/DBus.h:1293-1298 | argument lists of the modelled types with equal signatures are equal, so among them the equality test accepts exactly the encoded types |
| Signatures.IsDBusTypeCode | src/DBusHelpers.cpp:92-103 | the scan accepts a text iff all its characters are type codes |
| Signatures.AreDBusTypeCodeBracketsEven | src/DBusHelpers.cpp:105-127 | the counting loop accepts a text iff opening and closing brackets balance |
| Signatures.BalanceIsCounted | src/DBusHelpers.cpp:105-127 | that is, iff as many brackets of either kind close as open |
| Signatures.SigPassesScans | src/DBus.h:1280-1291 | every generated signature passes both scans |
| Signatures.SigsPassScans | src/DBus.h:1280-1291 | and so does the signature of every argument list |
| Encoding.Relocate | src/DBus.h:593-722 | moving any value between positions that agree modulo the largest alignment inside it changes neither its bytes nor what marshalling it throws |
| Encoding.RelocateEntries | src/DBus.h:681-704 | the same for the entries of a dictionary, at any nesting, between positions that agree modulo 8 |
| Encoding.ScratchEntriesAreInPlace | src/DBus.h:679-715 | entries built from position 0 of an empty buffer are byte for byte the entries built in place after the padded length, and fail alike |
| Encoding.EncIsNonempty | src/DBus.h:759-777 | every value that is accepted takes at least one byte, which is what makes loops over byte counts count elements |
| WireFormat.AlignmentsByCharacter | src/DBusHelpers.cpp:129-157 | the alignment of every type is that of its signature's first character, but for dictionaries outside structs and entries, which have 8 |
| WireFormat.NumbersAreSpelled | src/DBus.h:499-515 | a number takes 1, 2, 4 or 8 bytes by its character, least significant first |
| WireFormat.TextsAreSpelled | src/DBus.h:517-551 | a length of four bytes, one for a signature, the text, a NUL |
| WireFormat.ArraysAreSpelled | src/DBus.h:593-638 | the byte count of the elements; zeros up to their boundary, not counted; each element at the first multiple of its boundary with zeros between them and nothing behind the last |
| WireFormat.StructsAreSpelled | src/DBus.h:640-668 | the fields likewise, each at the boundary of its first character |
| WireFormat.BodiesAreSpelled | src/DBus.h:553-574 | the arguments likewise, dictionaries at multiples of 8 |
| WireFormat.DictsAreSpelled | src/DBus.h:670-722 | the byte count of the entries; each key at a multiple of 8, each value at its boundary |
| WireFormat.VariantsAreSpelled | src/DBus.h:298-320 | a signature, zeros, and the payload at the boundary of its type |
| WireFormat.TextIsAcceptedIff | src/DBus.h:531-534 | a text is refused iff it holds a NUL |
| WireFormat.ArrayIsAcceptedIff | src/DBus.h:593-638 | an array is accepted iff its elements are numbers, or all accepted and below 67108864 bytes |
| Marshaller.BlockCopyIsElementwise | src/DBus.h:599-626 | at a position aligned for the element, the memory of a vector of numbers is what the element loop with its padding writes |
| Marshaller.Buffer.ApplyPadding | src/DBus.h:49-56 | zeros are appended up to the next multiple of the alignment, by absolute length |
| Marshaller.Buffer.MarshalFixed | src/DBus.h:499-515 | the digits of the number to base 256, least significant first, in as many bytes as asked for |
| Marshaller.Buffer.MarshalText | src/DBus.h:517-551 | length, bytes and NUL are appended, or nothing and an error iff the text holds a NUL |
| Marshaller.Buffer.Marshal | src/DBus.h:758-777 | appends exactly the encoding of the value at the buffer's length, or throws exactly the first fault; of a number, digit by digit |
| Marshaller.Buffer.MarshalArray | src/DBus.h:593-638 | the back-patched length is the byte count of the elements without the padding before them; 64 MiB of non-fixed elements are refused |
| Marshaller.Buffer.MarshalElems | src/DBus.h:616-624 | the loop pads between elements and never after the last |
| Marshaller.Buffer.MarshalParts | src/DBus.h:553-668 | parts are padded for the next part's type; a dictionary is padded to 4 in a struct and to 8 at the top level |
| Marshaller.Buffer.MarshalDict | src/DBus.h:670-722 | the relocated scratch buffer equals the encoding in place, for the empty dictionary too |
| Marshaller.Buffer.MarshalEntries | src/DBus.h:683-704 | the loop pads each entry but the first to 8 |
| Marshaller.Buffer.MarshalEntry | src/DBus.h:690-703 | key, padding for the value's type, value |
| Marshaller.Buffer.MarshalVariant | src/DBus.h:298-320 | signature, padding by the payload's alignment, payload |
| Unmarshaller.Reader.SkipPadding | src/DBus.h:68-74 | the cursor moves to the next multiple of the alignment |
| Unmarshaller.Reader.UnmarshalNumber | src/DBus.h:805-835 | if there are as many bytes, their sum weighted by 256^i and the cursor behind them, or the error |
| Unmarshaller.Reader.UnmarshalText | src/DBus.h:837-873 | text and cursor behind its NUL, or the error for a length that does not fit |
| Unmarshaller.Reader.Unmarshal | src/DBus.h:1266-1277 | outcome and cursor are those of the typed decoder on any buffer whatever |
| Unmarshaller.Reader.UnmarshalArray | src/DBus.h:918-1030 | the same for the byte-driven element loop and for the block read |
| Unmarshaller.Reader.UnmarshalParts | src/DBus.h:875-1062 | the same for structs and argument lists |
| Unmarshaller.Reader.UnmarshalDict | src/DBus.h:1064-1128 | the same for dictionaries, with the second padding of the empty one |
| Unmarshaller.Reader.UnmarshalEntries | src/DBus.h:1096-1124 | the byte-driven entry loop; the first value under a key stays |
| Unmarshaller.Reader.UnmarshalEntry | src/DBus.h:1100-1106 | key, skipped padding, value |
| Unmarshaller.Reader.UnmarshalVariant | src/DBus.h:1130-1243 | the interpreter loop that edits its own signature ends, on any buffer, where the interpreter on lists of codes ends, and cuts the slice there; it terminates because unread bytes, then unread codes, decrease |
| Unmarshaller.Reader.InterpretCode | src/DBus.h:1138-1210 | one iteration is one step of the interpreter and decreases (unread bytes, unread codes), even when it splices a nested signature in |
| Unmarshaller.Reader.SkipDict | src/DBus.h:1188-1194 | the index ends behind the first closing brace or behind the end |
| Unmarshaller.BlockReadIsElementwise | src/DBus.h:932-973 | reading an aligned array of numbers as one block gives the values, cursor and failures of the element loop |
| RoundTrip.DecodesBack | src/DBus.h:758-777 | wherever a buffer holds the encoding of a sendable value, decoding there yields it and stops at its end, for all types |
| RoundTrip.DecElemsBack | src/DBus.h:989-1015 | from any point of an array on, the byte-driven loop reads exactly the remaining elements |
| RoundTrip.DecEntriesBack | src/DBus.h:1095-1124 | from any point of a dictionary on, the byte-driven loop reads exactly the remaining entries, and emplaces each |
| RoundTrip.CodecRoundTrip | src/DBus.h:779-785 | behind any prefix and before any suffix a value comes back, as sent if its type holds no variant, with the cursor exactly at its end |
| RoundTrip.ReceivedAsSent | src/DBus.h:1266-1277 | only variants are received in another form than they were sent |
| RoundTrip.ArgumentsRoundTrip | src/DBus.h:1319-1335 | a whole argument list comes back and every byte is consumed |
| RoundTrip.NumberArrayComesBackIffBelow64MiB | src/DBus.h:923-926 | an array of numbers is always written, and comes back iff it is below 67108864 bytes |
| RoundTrip.HugeArrayIsRefused | src/DBus.h:923-926 | 64 MiB of zero bytes are written and refused by the reader |
| RoundTrip.FirstUnderAKeyIsRead | src/DBus.h:1096-1124 | whatever entries were written, of those with one key the first is read, and no other |
| Readings.NumberIsRead | src/DBus.h:805-835 | on any bytes, a number is their weighted sum or missing; a boolean is true iff it is 1 |
| Readings.TextIsReadIff | src/DBus.h:837-873 | a text is read iff its length, it, and one byte more are there, and a path is grammatical |
| Readings.ArrayIsTooLongIff | src/DBus.h:918-930 | an announced length of 67108864 or more is refused |
| Readings.LengthMayEndInsideElement | src/DBus.h:989-1015 | an announced length that ends inside the only element has that element read whole |
| Readings.EmptySignatureIsRefused | src/DBus.h:1130-1136 | a variant with an empty signature is refused |
| Readings.ReadIsTyped | src/DBus.h:1266-1277 | whatever the bytes, a value that is read has the type asked for: paths valid, booleans 0 or 1, numbers in range, no key twice |
| Walking.WalkSkips | src/DBus.h:1138-1210 | from before its padding, consuming a walkable value's signature takes the cursor exactly to the end of its bytes |
| Walking.DecVariantBack | src/DBus.h:1212-1242 | the reader cuts out exactly the payload that was written, under the payload's signature |
| Variants.TextSurvivesCreationIffNoNul | src/DBus.h:170-205 | a text put into a variant is marshalled as it is iff it holds no NUL; up to 31 bytes with a NUL are cut silently |
| Variants.InterpreterAgreesWithDecoder | src/DBus.h:1131-1212 | the flat interpreter stops where the recursive typed decoder stops |
| Variants.PayloadDecodesFromZero | src/DBus.h:322-352 | a cut-out payload whose start no inner padding can tell from 0 decodes from position 0, whatever bytes stand behind it |
| Variants.VariantRoundTrip | src/DBus.h:1212-1242 | a boxed value is extracted again from the span, inline and heap storages alike, when asked for as its own type, and refused as any other |
| Variants.BasicsAndStructsRelocate | src/DBus.h:298-320 | basic values and structs always start where that holds |
| Variants.ShortTextIsCut | src/DBus.h:186-205 | "a", NUL, "b" put into a variant is "a" |
| VariantSlices.EveryValueComesBackIff | src/DBus.h:322-352 | of a type built from basic types, variants, single-code arrays and structs of these, every value that is written as a variant is read back from the bytes, into a slice or a copy, and extracted as it was written; iff the payload started at a multiple of 8, if it is a variant, an array of variants or an array of 8-byte numbers |
| VariantSlices.WideArrayComesBackIffAligned | src/DBus.h:437-457 | an array of 8-byte numbers that is not copied is extracted iff it started at a multiple of 8, and fails otherwise |
| VariantSlices.OwnedWideArrayComesBackIff | src/DBus.h:1218-1237 | one that is copied is extracted, whatever the unused bytes of an inline copy are, iff it started at a multiple of 8 or is empty |
| VariantSlices.NestedNumbersComeBackIffAligned | src/DBus.h:1200-1208 | through a variant in a variant, each of the two copied or not, every number of w bytes is read as it was written iff the outer payload started at a multiple of w |
| VariantSlices.ShortWideArrayIsLost | src/DBus.h:437-457 | the variant of an array of one 64-bit number, at position 0, cannot be extracted |
| VariantSlices.EmptyWideArrayDependsOnStorage | src/DBus.h:1218-1237 | that of the empty array cannot be extracted from a slice, but can be from a copy |
| VariantSlices.NestedArrives | src/DBus.h:1212-1217 | a variant of a variant of a number, at position 0, arrives as an inner variant written at position 3 |
| VariantSlices.NestedOneReadsAs256 | src/DBus.h:322-352 | from which the 32-bit number 1 is read as 256 |
| VariantWalks.WalkMoves | src/DBus.h:1138-1210 | consuming a complete type moves the cursor forward, on any bytes |
| VariantWalks.ArrayPayloadIsWalkedIff | src/DBus.h:1174-1187 | the exact condition, for every element type, under which an array payload is delimited correctly |
| VariantWalks.ArrayOfDictsIsWalkedIffWholeEights | src/DBus.h:1174-1194 | an array of dictionaries with only closing codes behind the first closing brace is delimited correctly iff its elements take a multiple of 8 bytes |
| VariantWalks.DictPayloadIsWalkedIff | src/DBus.h:1188-1194 | the exact condition, for every value type, under which a dictionary payload is delimited correctly |
| VariantWalks.EmptyArrayOfStructsIsMissed | src/DBus.h:1174-1187 | the empty a(y) at 0 is not |
| VariantWalks.EmptyArrayOfDictsIsHit | src/DBus.h:1174-1194 | the empty aa{yy} at 0 is |
| VariantWalks.MisalignedDictIsMissed | src/DBus.h:1188-1194 | the empty a{yy} from cursor 1 is not |
| VariantWalks.MisalignedDictIsHitByChance | src/DBus.h:1188-1194 | the empty a{s(a{sv}x)} from cursor 1 is |
| VariantCourses.WalkKeepsToCourse | src/DBus.h:1138-1210 | whatever the type, the value, the codes behind it and the buffer, the walk is at the end of the value's course with the codes left there |
| VariantCourses.WalkableStaysOnCourse | src/DBus.h:1138-1210 | over a walkable value the course is the encoding |
| VariantCourses.WalkableIsPayload | src/DBus.h:1174-1194 | a value that is walkable is of a type without dictionaries and without arrays of many-code elements |
| VariantCourses.PayloadIsWalkable | src/DBus.h:1174-1194 | every value of such a type that can be read is walkable |
| VariantCourses.PayloadIsDelimitedIff | src/DBus.h:1212-1217 | a payload of any type is delimited correctly iff its course ends at its end with only closing codes left, or before it and the codes left read on to the end |
| VariantCourses.LastDictIsDelimitedIff | src/DBus.h:1188-1194 | a struct that ends in a dictionary, with only closing codes behind its brace, is delimited correctly iff it ends at a multiple of 8; the walk ends at the next one |
| VariantCourses.StructOfDictIsRefused | src/DBus.h:1212-1217 | the variant of the struct (a{yy}) with one entry, at 0, is accepted by the marshaller and refused by the reader |
| Bodies.UnmarshalBody | src/DBus.h:1279-1335 | the order of the checks and their errors, ending with the one for bytes left over |
| Bodies.BodyRoundTrip | src/DBus.h:1279-1335 | a body is read in full by a reader that names its types and refused to a reader that names any others |
| Bodies.TrailingBytesAreRefused | src/DBus.h:1319-1335 | with anything left over behind it, it is refused |
| Bodies.SignatureErrors | src/DBus.h:1279-1298 | which of the three signature errors is reported: a character that is no type code, as many closing as opening brackets, other types |
| OutgoingMessages.SelectIsRowByRow | src/DBusMessage.cpp:75-153 | the table's loop fails iff some row refuses, and else collects exactly the rows' fields |
| OutgoingMessages.CompleteCarriesExactly | src/DBusMessage.cpp:155-169 | with the optional interface and destination, the fields are exactly those the message carries, each once per code |
| OutgoingMessages.HeaderIsAcceptedIff | src/DBusMessage.cpp:175-192 | a header is marshalled iff the interface as it will be shown is still a valid name, no text of more than 31 bytes holds a NUL, and the field array is below 64 MiB |
| OutgoingMessages.RowsInLiterals | src/DBus.h:460-491 | what each row of the table does for each message type, in numbers |
| Creation.RefusalInLiterals | src/DBusMessage.cpp:75-153 | which error is raised: that of the first row, by code, whose member is missing for the type |
| Creation.FieldsInLiterals | src/DBusMessage.cpp:75-169 | a complete message carries exactly: path under 1, interface 2, member 3, error name 4, reply serial 5, signature 8, destination 6, in the order they are pushed, with their types and values |
| Creation.MessageInLiterals | src/DBusMessage.cpp:175-200 | an l, type, flags, 1; body length and serial; from 12 the array of structs of code and variant; zeros to a multiple of 8; the body |
| Creation.SelectFields | src/DBusMessage.cpp:75-153 | the loop stops at the first refusing row with its error and keeps the table's order |
| Creation.CreateDBusMessage | src/DBusMessage.cpp:48-202 | the message with those fields laid out that way, or the first error; there is one iff no required member is missing, a dot of a short interface name stands before its first NUL, no text of more than 31 bytes holds a NUL, and the field array is below 67108864 bytes |
| IncomingMessages.FieldListBack | src/IncomingDBusMessage.cpp:47-49 | the field array at position 12 decodes to the fields that were pushed, whoever pushed them |
| IncomingMessages.FindFirst | src/IncomingDBusMessage.cpp:51-53 | looking a code up finds the first field that has it, or none |
| IncomingMessages.HeaderIsUnderstood | src/IncomingDBusMessage.cpp:43-190 | the outcome for any header, ours or not: which error, in the order of the checks, or the record of what stands under 5, 1, 2, 3, 4, 8 and 7, the sender |
| IncomingMessages.BusAddsSender | src/DBusTypes.h:72-73 | a sent message stays one when the bus puts the sender's name among its fields |
| IncomingMessages.FindCarried | src/IncomingDBusMessage.cpp:51-53 | in whatever order fields were pushed, that first field is the one the message carries |
| IncomingMessages.NothingMissing | src/IncomingDBusMessage.cpp:64-160 | every message the sender's table accepts lacks nothing the receiver requires |
| IncomingMessages.HeaderRoundTrip | src/IncomingDBusMessage.cpp:43-190 | the receiver makes of a sent header, with or without the bus's SENDER field, exactly the record the message stands for, sender included |
| IncomingMessages.DeliveredInOwnTerms | src/DBus.h:460-491 | what that record holds, member by member and message type by message type, restricted to the fields the table emits |
| IncomingMessages.TextComesBackIffNoNul | src/DBusMessage.cpp:110-149 | each text field of a sent message arrives as it was set iff it holds no NUL |
| IncomingMessages.MemberComesBackIffNoNul | src/DBusMessage.cpp:134-141 | in particular the member |
| Framing.ReadLoop | src/DBusConnection.txx:1323-1364 | the loop yields all whole messages of a stream in order and leaves the rest |
| Framing.FrameIsCut | src/DBusConnection.txx:1336-1362 | whatever follows it and whoever wrote it, a message is cut off exactly, and its header parsed from its own bytes |
| Framing.StreamIsCut | src/DBusConnection.txx:1329-1397 | of any messages one after the other the loop yields exactly those whose header is accepted, in order; a rejected one costs no other |
| Framing.FrameRoundTrip | src/DBusConnection.txx:1336-1362 | a sent message is parsed into its record |
| Framing.CreatedIsSent | src/DBusMessage.cpp:256-260 | what is created satisfies what the receiver's side assumes of a sent message |
| Framing.ReasonableMessageIsSent | src/DBusMessage.cpp:256-260 | so is every message with its required members, texts of up to a mebibyte and a body below two gibibytes |
| Framing.MemberIsCut | src/DBusMessage.cpp:134-141 | a call of the member "a", NUL, "b" is sent, and arrives as a call of "a" |
| Framing.StreamRoundTrip | src/DBusConnection.txx:1329-1363 | of sent messages that is all of them: any list is split into exactly that list, in order, and what remains is what follows it |
| Framing.WholeStreamIsConsumed | src/DBusConnection.txx:1329-1363 | with nothing behind the messages, no byte is left |
| Framing.PartialMessageWaits | src/DBusConnection.txx:1350-1352 | any proper part of a message behind them is left in the stream untouched |
| Deliveries.ArgumentsArrive | src/DBusMessage.h:110-117 | arguments set on a message come out of the byte stream as they were set, variants as slices, for a receiver that asks for their types; one that asks for others is refused |
| Deliveries.RuleSeesSentArguments | src/DBusMatchRule.cpp:426-500 | a match rule on the receiver's side sees exactly the plain arguments that were set |
| Conversations.ReplyInLiterals | src/DBusMessage.cpp:205-212 | a reply holds the request's serial under 5, its sender under 6 unless it has none, and nothing else |
| Conversations.ErrorInLiterals | src/DBusMessage.h:86-101 | an error exists iff its text holds no NUL; it holds its name under 4, the serial under 5, "s" under 8, the sender under 6, and its body is read as exactly the text |
| Conversations.RepliesAndErrorsAnswer | src/DBusMessage.cpp:205-212 | a reply or an error built from a received request is complete, carries the request's serial and is addressed to its sender |
| Conversations.AnswerNamesItsRequest | src/DBusConnection.txx:535-540 | the answer is addressed to the request's sender, and comes out of the byte stream as a reply to the serial of the request |
| Conversations.CallIsAnswered | src/DBusConnection.txx:535-560 | in any reachable state, when a call handed to the socket has been passed on in the caller's name, read and answered, the answer is addressed to the caller, its bytes are read as a reply that is routed, never unknown, and the call's own caller finds exactly it |
| Conversations.AnswersComeOut | src/DBusConnection.txx:777-793 | an error built from a request is raised at the caller under its name and with its text, a return is returned |
| ReplyTable.Connection.constructor | src/DBusConnection.txx:232-238 | all slots ready and empty |
| ReplyTable.Connection.Register | src/DBusConnection.txx:717-750 | the serial drawn, the home chosen, and the whole new table |
| ReplyTable.Connection.HandleReply | src/DBusConnection.txx:535-560 | the branch taken; whether it suspends because the channel is full; the message placed, and the whole new table |
| ReplyTable.Connection.Collect | src/DBusConnection.txx:765-775 | the caller gets what its channel held, and its slot or entry is freed |
| ReplyRouting.StepKeepsInv | src/DBusConnection.txx:717-775 | every step, in any interleaving, keeps: busy slots and fallback entries are exactly the homes of registered serials, and a channel only holds its own request's reply |
| ReplyRouting.RunKeepsInv | src/DBusConnection.txx:717-775 | so does every run |
| ReplyRouting.ReachableInv | src/DBusConnection.txx:232-238 | and it holds in every reachable state |
| ReplyRouting.TableRefinesPlainMap | src/DBusConnection.txx:535-550 | in every reachable state, each step of slots and fallback is the step of one plain map from serial to awaited reply |
| ReplyRouting.OwnReplyIsCollected | src/DBusConnection.txx:766-775 | the reply a caller collects answers that caller's message |
| ReplyRouting.HomesAreExclusive | src/DBusConnection.txx:728-750 | an uncollected request has exactly one home, and no two share one |
| ReplyRouting.UnknownSerialIsUnreachable | src/DBusConnection.txx:552-560 | a reply to a message already handed to the socket, answered at most once, never meets the failure, and finds its channel empty |
| ReplyRouting.RoutedExactlyHome | src/DBusConnection.txx:535-560 | in any reachable state a serial is routed to the slot, to the fallback or to the failure exactly as its request is at home there or nowhere |
| ReplyRouting.UnregisteredSerialIsUnknown | src/DBusConnection.txx:728-754 | a reply to a serial not yet registered would meet it: registering before writing is what the above rests on |
| ReplyRouting.SerialsCountSends | src/DBusConnection.txx:717-718 | the k-th message sent has serial k, up to 32 bits |
| ReplyRouting.FallbackIffSlotIsTaken | src/DBusConnection.txx:728-750 | a request goes to the fallback iff an uncollected or lost one with the same remainder modulo 56 has a slot |
| ReplyRouting.RecentRequestsNeedNoFallback | src/DBusConnection.txx:728-750 | so never while no such request is older than the last 55 messages |
| ReplyRouting.StepConserves | src/DBusConnection.txx:728-775 | every step keeps: busy slots plus fallback entries equals uncollected plus lost requests |
| ReplyRouting.ConservationAndQuiescence | src/DBusConnection.txx:728-775 | so it holds in every reachable state; with nothing uncollected or lost, every slot is ready and the fallback map is empty |
| NameCache.DBusNameCache.OnNameOwnerChanged | src/DBusNameCache.txx:64-96 | the cache after a signal: the name leaves its old owner, an owner left without names goes, the new owner gains the name |
| NameCache.DBusNameCache.GetWellKnownNames | src/DBusNameCache.txx:98-115 | the unique name first, then each name of its set exactly once |
| NameCache.ChangeKeepsInverse | src/DBusNameCache.txx:64-96 | a signal whose old owner is the true one keeps the cache the inverse of ownership |
| NameCache.HistoryKeepsInverse | src/DBusNameCache.txx:64-96 | so does any history of such signals |
| NameCache.CacheIsInverseOfOwnership | src/DBusNameCache.txx:64-96 | from an empty cache, a name is in an owner's set iff it was seen and that owner holds it, it is in at most one set, and no empty set remains |
| MatchRules.SplitString | src/DBusMatchRule.cpp:198-217 | the tokens concatenate to the text, each slash and each maximal run of other characters is one token |
| MatchRules.IsPathPrefixed | src/DBusMatchRule.cpp:219-230 | the loop tests for a prefix of the token list |
| MatchRules.TokensAreUnique | src/DBusMatchRule.cpp:198-217 | there is only one such split |
| MatchRules.TokenPrefixIsWholeTokenPrefix | src/DBusMatchRule.cpp:219-230 | tokens begin tokens iff the text begins the text without cutting a word in two |
| MatchRules.MatchesPath | src/DBusMatchRule.cpp:486-500 | the tokenised test holds iff the two are equal or one ends in "/" and is a string prefix of the other; it is undefined iff they differ and one is empty, whose last character is then read |
| MatchRules.MatchesArguments | src/DBusMatchRule.cpp:436-515 | the argument loop, the path namespace, the argument-path loop and the first-argument namespace accept iff every one of these conditions holds, unless a path test is reached that is undefined |
| MatchRules.ArgPathsHold | src/DBusMatchRule.cpp:464-501 | the loop passes iff every test does, and is undefined iff one is reached, all before it passing, that is |
| MatchRules.ArgPathTestIsCondition | src/DBusMatchRule.cpp:472-500 | a test that is defined passes iff its condition holds; an undefined one has an empty text |
| MatchRules.PathsMatchIffFrontEndsInSlash | src/DBusMatchRule.cpp:489-499 | of two texts that differ one must begin the other and end in a slash, in either order |
| MatchRules.ContainsIff | src/DBusMatchRule.cpp:455-463 | the namespace test passes iff the namespace stands anywhere in the path |
| MatchRules.NamespaceIsContained | src/DBusMatchRule.h:93-97 | the namespace test accepts every path it is documented to accept |
| MatchRules.NamespaceTestIsExactIffRoot | src/DBusMatchRule.cpp:455-463 | it is exact on all paths iff the namespace is the root |
| MatchRules.NamespacesApart | src/DBusMatchRule.cpp:455-463 | "/ab" passes for a path in "/a" |
| MatchRules.ArgNamespaceTestIsExactIff | src/DBusMatchRule.cpp:503-512 | the prefix test on the first string is exact iff that string does not go on behind the namespace without a dot |
| ArgumentWalk.WalkSignature | src/DBusMatchRule.cpp:45-196 | the loop's outcome on any signature and body, structs, dictionaries and variants included: cursor and both maps, or the error |
| ArgumentWalk.WalkCode | src/DBusMatchRule.cpp:49-194 | one turn of the loop: the codes passed, the cursor and what is added |
| ArgumentWalk.WalkDict | src/DBusMatchRule.cpp:126-148 | a dictionary is skipped by the length at its brace, and its codes by counting braces |
| ArgumentWalk.WalkStruct | src/DBusMatchRule.cpp:149-168 | fields are walked one code at a time, ending one early when the closing bracket is next but one |
| ArgumentWalk.OnlyTextsAreAdded | src/DBusMatchRule.cpp:59-107 | one turn adds at most one text, of a string or path code, under the index, and overwrites none |
| ArgumentWalk.NestedWalksAddNothing | src/DBusMatchRule.cpp:149-182 | the walk over a struct's field or a variant's payload adds nothing |
| ArgumentWalk.InvalidPathFails | src/DBusMatchRule.cpp:77-90 | a path argument that is no path ends the walk with an error |
| ArgumentWalk.WalkFindsExactlyTheTexts | src/DBusMatchRule.cpp:45-196 | on basic arguments, arrays of single-code elements and dictionaries, the maps hold exactly the strings and object paths, each under its index shifted by the dictionaries before it, and every byte is consumed |
| ArgumentWalk.FoundUnderOwnIndexIff | src/DBusMatchRule.cpp:45-196 | on bodies of basic arguments, arrays of single-code elements and dictionaries, for all values of the arguments, the walk has the string at index j under index j iff no dictionary precedes it |
| ArgumentWalk.DictTakesTwoTurns | src/DBusMatchRule.cpp:110-147 | a dictionary of any type is skipped to its end in two turns of the loop |
| ArgumentWalk.RulesSeeTheArguments | src/DBusMatchRule.cpp:436-515 | so, without dictionaries, conditions hold iff the typed arguments satisfy them, the first-argument namespace included |
| ArgumentWalk.LastFieldIsLeft | src/DBusMatchRule.cpp:149-168 | of a struct of two or more numbers the last is never read, whatever the body |
| ArgumentWalk.StructIsSkippedIff | src/DBusMatchRule.cpp:149-168 | the cursor is then at the end of the struct iff the padding for the last number makes up for its width; it never does for two numbers, and does for four of 1, 1, 2 and 2 bytes |
| ArgumentWalk.CodeBehindIsDropped | src/DBusMatchRule.cpp:149-168 | behind a struct of one number the next code is passed over with its argument unread, or the walk fails |
| ArgumentWalk.StringBehindStructIsLost | src/DBusMatchRule.cpp:149-168 | from any body of signature (y)s nothing is collected, without an error |
| ArgumentWalk.ElementCodesAreLeft | src/DBusMatchRule.cpp:110-125 | behind an array, skipped to its end, all codes of its element but the first are walked as arguments |
| ArgumentWalk.DictElementIsLeft | src/DBusMatchRule.cpp:110-125 | behind an array of dictionaries the element is walked as a dictionary argument |
| ArgumentWalk.ArraysOfStringArraysAreOverrun | src/DBusMatchRule.cpp:110-125 | an array of arrays of strings that ends the body has the walk read behind the end |
| ArgumentWalk.VariantSignatureIsReadIff | src/DBusMatchRule.cpp:171-174 | a variant's signature is decoded iff its length is its first code plus two |
| ArgumentWalk.VariantArgumentFails | src/DBusMatchRule.cpp:169-182 | a variant with a signature of any other length ends the walk with an error |

## Left out

- Sockets, coroutines and their scheduling, threads, authentication, logging, environment lookup: only the atomic steps of the reply table and the byte arithmetic of the read loop are modelled.
- Float has no signature; arrays of booleans are written four bytes an element and read one byte an element. Neither is part of the type universe.
- Reading into a `std::array` of fixed length: its count checks would only add an easy case.
- Malformed input beyond the modelled errors: cursors are unbounded naturals, so 32-bit wrap-around of a cursor or of a length, and reading past the end where the code does not look, are not modelled; skipping past the end is.
- MultipleCompleteTypes is modelled as the argument list of a body only, not as a value inside another type.
- The order of dictionary entries: entries come back in the order they were written; that a `std::map` sorts them is not part of this model.
- Equality of variants, and the uninitialised tail of their inline buffer beyond being arbitrary bytes.
- Conformance to the D-Bus Specification of arrays of dictionaries and of dictionaries after other top-level arguments, which the code pads to 8 on both sides.
- Marshaller.Buffer.Marshal: does not say what a failed call leaves in the buffer, because every caller discards it.
- Messages whose signature has 256 bytes or more are created, but what arrives is not modelled: the code cuts the length byte and the receiver reads another signature.
- IncomingMessages.HeaderIsUnderstood: is about field arrays of basic values; what a receiver makes of fields that hold containers, and of arrays that do not decode, is modelled but not characterised.
- The DESTINATION field of a received header is never read: the record's destination is its sender.
- The resumption of a routine that suspended on a full channel: peers in the modelled runs reply at most once, so none does.
- ArgumentWalk.LastFieldIsLeft: is about fields that are numbers; what the walk makes of structs with other fields is modelled, but not characterised.
- ArgumentWalk.ElementCodesAreLeft: reduces arrays of many-code elements to the walk of the codes left; what that finds in the arguments behind them is not characterised further.
- VariantCourses.PayloadIsDelimitedIff: reduces the case that more than closing codes are left to the walk of those codes; which values are then read on by chance is not characterised further.
- Interface names as body arguments: their signature is that of a string, they are validated again on reading, and they are not in the type universe; that a signature determines its types holds up to them.
- Runs end when the 32-bit serial counter is back at 0; what happens when serials repeat is not modelled.
- A write failure leaves its slot busy for good, as in the code; such requests are counted as lost.
- The conditions of match rules on single header fields and on well-known names of the sender, handler dispatch, and match-rule bookkeeping towards the daemon.
- Setters, getters, exception texts and the printing of match rules.
- Unit-test builds sort the header fields by code before they are marshalled; the order modelled is that of other builds.
- The flag that no reply is expected: registration takes it as a parameter; that it is bit 0 of the flags byte is not part of this model.
