# snacc in Dafny

A model of the C runtime library and of two semantic passes of the snacc ASN.1 compiler, with proofs of what they
promise.

The runtime library is modelled bottom up, each layer against the one below it:

- `ExpBuf.dfy`: the doubly linked blocks that encoders fill backwards and decoders read forwards, as one sequence.
- `Tag.dfy`, `Length.dfy`, `Header.dfy`, `Int.dfy`, `Real.dfy`, `OctetString.dfy`: the basic encoding rules for
  identifier and length octets, INTEGER, REAL and constructed OCTET STRING with its stack of pieces.
- `Tbl*.dfy`: the recursive codec of type tables, which uses all of them but REAL. `TblTree.dfy` says what its octets
  are, by a reader of its own, and `TblStack.dfy` runs it on buffers.
- `Hash.dfy`, `NibbleAlloc.dfy`, `Utf8String.dfy`: the hash trie, the zeroing allocator and the UTF-8 converters.

The compiler passes are `AsnList.dfy` (the list with a cursor), `TypeRefs.dfy`, `RefGraph.dfy`, `Dependency.dfy` and
`Recursive.dfy` (sorting type definitions), `Asn1Types.dfy`, `EffectiveTags.dfy` and `TagChecks.dfy` (tags through
references and CHOICEs), and `Defined.dfy` and `FieldNames.dfy` (names in a scope). What their walks over nested types
find is stated by paths of element indices (`Paths.dfy`).

## Conventions

- The platform has 32-bit `int`, `long` and `size_t`, and a 32-bit `wchar_t`. Lengths and byte counts are natural
  numbers; below 2^32 they agree with `AsnLen`.
- `longjmp` is a `Jump` with its code, and an abort in `BDecAsnRealContent` is the jump `ABORT`. `malloc` succeeds.
- Decoders are proved equal to functions from the remaining octets to a value, a byte count and a rest, or to a jump.
- Doubles are those of IEEE 754: every sum and product is rounded to the nearest, a half to the even one, and may
  overflow or vanish. `frexp` is taken as specified, and `pow` of a power of two as exact where a double can hold it,
  0 below 2^-1074 and infinite from 2^1024 on.
- The loops over element lists that `ChkFieldNames` nests go by cursors kept in a map from lists to positions.
- The sorter works on values of `CursorList`, which the class `AsnList` is proved to implement. Type definitions are
  identified by their addresses; `refList`, `recursive` and `tmpRefCount` are fields of the class `Module`.
- The elements of a list are never `NULL`, which is where the list macros would stop early.

## Where the code differs from its description

- `BDecAsnIntContent` seeds the sign with `0x80 << 8`: negative numbers of one to three octets are not recovered
  (`Ints.DecodedIff`).
- `BEncDefLen` has 16777126 where 16777216 was meant (`Lengths.EncDefLenAgainstLoop`).
- `BDecTag` never rejects a long tag, and stops one octet early from 2^21 on (`Tags.TagConsumedIff`).
- The UTF-8 table has 0x1FFFF for four octets and 0x07FFFFFF for six (`Utf8Strings.ShortestIff`).
- `UndefineObj` removes all matches, not the first (`DefinedObjects.UndefineUndoes`).
- REALs whose written exponent is below -1074, among them all doubles below 2^-1067 and some normal ones, are
  read as zero, since the decoder computes the power by itself (`Reals.DecRealEncReal`, `Reals.NormalIsLost`).
- A failed check of a PrintableString is to raise the write error of the buffer, but `GenBufSetWriteError`
  (c-lib/include/gen-buf.h:95) hands the `GenBuf` to a routine that takes the `ExpBuf` in it, which overwrites one of
  the buffer's functions. The model does not go on after that (`TblEncode.BEncTBL`).
- `SortTypeDefs` dereferences the last node of an empty list when nothing that is left is flagged recursive; the flags
  that `MarkRecursiveTypes` sets rule this out, except through information object classes, which it does not follow
  (`Recursives.MarkAndSort`, `Recursives.TwoClassesCrash`).
- `GetTags` exits for an untagged alternative that is no CHOICE, which `AddFirstTag` lets pass
  (`EffectiveTags.ExitsIff`, `TagChecks.AcceptedButExits`).
- `ChkFieldNames` crashes for a CHOICE that contains an alias of itself without a name
  (`FieldNames.ChkFieldNames`, `FieldNames.AliasReenters`).

## Model

| member | source | states |
|---|---|---|
| `ExpBufs.BufHandle.constructor` | c-lib/src/exp-buf.c:446-470 | a fresh handle with any block size of at least 1 is ready for reverse writes and holds nothing |
| `ExpBufs.BufHandle.PutByteRvs` | c-lib/src/exp-buf.c:829-867 | the data along `next` become the octet followed by everything written before; the head is again not full and every later block is full, whatever the block size |
| `ExpBufs.BufHandle.PutSegRvs` | c-lib/src/exp-buf.c:725-787 | the same for a whole segment, across as many blocks as it takes |
| `ExpBufs.BufHandle.StartRead` | c-lib/src/exp-buf.c:433-438 | from the first block with data, what can be read is exactly what was written, last piece first |
| `ExpBufs.BufHandle.GetByte` | c-lib/src/exp-buf.c:794-821 | the next octet of one sequence that does not depend on block boundaries or empty blocks; a read error, and 0, exactly at the end of the data |
| `ExpBufs.BufHandle.GetSeg` | c-lib/src/exp-buf.c:670-708 | the next octets up to the block boundary, at least one while data remain; end of data is reported exactly when none remain, and never as a read error |
| `ExpBufs.BufHandle.Copy` | c-lib/src/exp-buf.c:603-631 | the next `len` octets across blocks, or all that remain with a read error exactly when they are fewer |
| `ExpBufs.BufHandle.Skip` | c-lib/src/exp-buf.c:637-654 | passes over the next `len` octets, or all that remain, without a read error |
| `Lengths.BEncDefLen` | c-lib/src/asn-len.c:66-107 | prepends the definite length octets and returns their number |
| `Lengths.BEncDefLen2` | c-lib/src/asn-len.c:112-131 | the loop form prepends the fewest octets of the long form |
| `Lengths.BDecLen` | c-lib/src/asn-len.c:136-184 | reads length octets of the short, long and indefinite form as the specification function says, with its jumps |
| `Lengths.DecLenEncDefLen` | c-lib/src/asn-len.c:66-184 | every length below 2^32 is read back, and exactly its octets are consumed |
| `Lengths.EncDefLenAgainstLoop` | c-lib/src/asn-len.c:66-131 | below 2^31 the unrolled encoder writes what the loop form writes if and only if the length is not in 16777126..16777215, where it puts one zero octet more |
| `TblTrees.DecLenIs` | c-lib/src/asn-len.c:136-184 | for any octets: the short form and the forms 0x81 to 0x84 give the number that their octets are, 0x80 the indefinite length, and everything else the jump -13, -14 or -15 |
| `Tags.BEncTag` | c-lib/include/asn-tag.h:153-182 | prepends the identifier octets that the code's size calls for and returns their number |
| `Tags.TagOctetsDenote` | c-lib/include/asn-tag.h:153-182 | what those octets are: class and form bits with the literal values of X.690 and the code up to 30 in the first one, or 31 there and the code in base 128 in the fewest octets behind it, for codes below 2^28 |
| `Tags.BDecTag` | c-lib/src/asn-tag.c:71-110 | reads identifier octets into an `AsnTag` as the specification function says |
| `Tags.DecTagTagOctets` | c-lib/src/asn-tag.c:71-110 | for every class, form and code below 2^21, reading back consumes exactly the octets written and yields `MAKE_TAG_ID` |
| `Tags.TagConsumedIff` | c-lib/src/asn-tag.c:71-110 | the identifier octets are consumed exactly if and only if the code is below 2^21: the overflow test at line 95 never fires |
| `Tags.MakeTagIdInjective` | c-lib/include/asn-tag.h:54-62 | below 2^21 two tag ids are equal only for the same class, form and code |
| `Headers.HeaderRoundTrip` | c-lib/src/asn-tag.c:71-110 | identifier and length octets together are read back exactly, for codes below 2^21 and lengths below 2^32 |
| `Ints.BEncAsnIntContent` | c-lib/src/asn-int.c:124-163 | prepends the octets of the specification function and returns their number |
| `Ints.EncIntShortest` | c-lib/src/asn-int.c:124-163 | those octets denote the number in two's complement, and no shorter octets do (section 8.3.2 of ITU-T X.690) |
| `Ints.BDecAsnIntContent` | c-lib/src/asn-int.c:168-204 | reads contents as the code does, with the sign seeded by `0x80 << 8`, and with its two jumps |
| `Ints.DecIntEncInt` | c-lib/src/asn-int.c:168-204 | decoding what was encoded consumes exactly the contents and yields n for n >= 0 and for four octets, and n + 129*256^L reduced to 32 bits otherwise |
| `Ints.DecodedIff` | c-lib/src/asn-int.c:186 | the number comes back if and only if n >= 0 or n < -2^23 |
| `Ints.BEncUAsnIntContent` | c-lib/src/asn-int.c:259-308 | prepends the unsigned contents, with a zero octet first exactly when the top bit is set |
| `Ints.BDecUAsnIntContent` | c-lib/src/asn-int.c:315-357 | reads unsigned contents with the limits and jumps of the code |
| `Ints.DecUIntEncUInt` | c-lib/src/asn-int.c:259-357 | with a 32-bit `long` every value of 0..2^32-1 is read back |
| `OctetStrings.StrStk.Push` | c-lib/include/str-stk.h:80-91 | adds a piece on top and keeps all below, growing the stack when it is full |
| `OctetStrings.StrStk.Merge` | c-lib/src/asn-octs.c:211-240 | the result array is the pieces joined in order |
| `OctetStrings.PushPiece` | c-lib/src/asn-octs.c:155-185 | the segments of one primitive piece, however the buffer splits them, join to exactly that piece |
| `OctetStrings.FillOctetStringStk` | c-lib/src/asn-octs.c:131-203 | terminates with the remaining input as measure and leaves on the stack the pieces of the whole nested encoding in order |
| `OctetStrings.BEncAsnOctsContent` | c-lib/src/asn-octs.c:119-123 | prepends the octets and returns their number |
| `OctetStrings.BDecAsnOctsContent` | c-lib/src/asn-octs.c:245-276 | primitive and constructed contents are decoded as the specification function says, with its jumps |
| `OctetStrings.BDecAsnOcts` | c-lib/src/asn-octs.c:100-114 | the whole element is decoded as the specification function says |
| `OctetStrings.DecOctsEncTree` | c-lib/src/asn-octs.c:131-276 | every finite tree of primitive (0x04) and constructed (0x24) encodings, with short, long and indefinite lengths mixed at any depth, is consumed exactly and yields its leaves in order (section 8.7.3 of ITU-T X.690) |
| `TblEncode.BEncTBLTypeContent` | c-lib/boot/tbl.c:657-726 | comes to its end if and only if every name in the type is a PrintableString, and then has prepended exactly the encoding of the type and returns its length, for any nesting |
| `TblEncode.BEncTBLTypeContentContent` | c-lib/boot/tbl.c:941-982 | the same for the CHOICE of the type's content; read by a reader that knows nothing of tables, the octets are one element 0x80, 0xA1 or 0xA2 |
| `TblEncode.BEncTBLTypeContentSeqOfContent` | c-lib/boot/tbl.c:566-585 | the same for a list, which is written last element first and comes out in order |
| `TblEncode.BEncTBLTypeDefContent` | c-lib/boot/tbl.c:1062-1101 | the same for a type definition and its name |
| `TblEncode.BEncTBLModuleContent` | c-lib/boot/tbl.c:1312-1350 | the same for a module and its name |
| `TblEncode.BEncTBLContent` | c-lib/boot/tbl.c:1569-1627 | the same for the table's fields |
| `TblEncode.BEncTBL` | c-lib/boot/tbl.c:1545-1553 | comes to its end if and only if every name in the table is a PrintableString, and then has prepended exactly the encoding of the table and returns its length; a reader that knows nothing of tables reads one element 0x30 with all fields in it in their order |
| `TblTrees.ReadJoin` | c-lib/src/asn-len.c:136-184 | the generic reader of identifier and length octets reads two groups of elements in a row as both of them |
| `TblTrees.TypeOctets` | c-lib/boot/tbl.c:657-726 | the octets of a type: 0x80, 0x81, perhaps 0xA2 with 0x30 elements, 0xA3 around the content, and perhaps 0x84, 0xA5 and 0xA6, in this order, with integers in the fewest two's-complement octets |
| `TblTrees.ContentOctets` | c-lib/boot/tbl.c:941-982 | the octets of the content: 0x80 without contents, 0xA1 with one 0x30 element a type, or 0xA2 with 0x02 and 0x01 |
| `TblTrees.TypeDefOctets` | c-lib/boot/tbl.c:1062-1101 | the octets of a type definition: 0x30 with 0x02, 0x13, 0x30 and perhaps 0x05 |
| `TblTrees.ModuleOctets` | c-lib/boot/tbl.c:1312-1350 | the octets of a module: 0x30 with 0x80, perhaps 0x81, 0x82 and 0xA3 |
| `TblTrees.TableOctets` | c-lib/boot/tbl.c:1545-1627 | the octets of a whole table: 0x30 with six times 0x02 and a 0x30 with the modules |
| `TblDecode.BDecTBLTypeContent` | c-lib/boot/tbl.c:728-854 | the loop over optional fields does to the buffer and to `bytesDecoded` what the specification decoder says, on every input |
| `TblDecode.BDecTBLTypeContentContent` | c-lib/boot/tbl.c:984-1019 | the same for the CHOICE, mutually recursive with the type |
| `TblDecode.BDecTBLTypeDefContent` | c-lib/boot/tbl.c:1103-1170 | the same for a type definition |
| `TblDecode.BDecTBLModuleContent` | c-lib/boot/tbl.c:1352-1406 | the same for a module |
| `TblDecode.BDecTBLContent` | c-lib/boot/tbl.c:1629-1712 | the same for the table's fields |
| `TblDecode.BDecTBL` | c-lib/boot/tbl.c:1555-1567 | the same for the whole table |
| `TblDecodeSpec.Identifiers` | c-lib/boot/tbl.c:728-1712 | the identifiers that the decoders compare with, as numbers |
| `TblDecodeSpec.SequencesEnd` | c-lib/boot/tbl.c:1352-1712 | whatever the octets are, a sequence of definite length is only accepted when its fields use up exactly that length |
| `TblDecodeSpec.TypeEnds` | c-lib/boot/tbl.c:728-854 | the same for a type, through all combinations of its optional fields |
| `TblDecodeSpec.TypeDefEnds` | c-lib/boot/tbl.c:1103-1170 | the same for a type definition |
| `Tbl.ChkPrintableString` | c-lib/src/asn-PrintableStr.c:51-96 | accepts exactly the strings of letters, digits, space and the eleven signs, by their codes |
| `TblRoundTrip.TypeRoundTrip` | c-lib/boot/tbl.c:657-854 | an arbitrarily nested type is decoded to the same type, its integers and booleans as the leaf codecs leave them |
| `TblRoundTrip.NameOfPieces` | c-lib/boot/tbl.c:1120-1131 | a name in pieces, nested and with lengths of any form, is decoded to its leaves in a row |
| `TblRoundTrip.TypeContentRoundTrip` | c-lib/boot/tbl.c:941-1019 | the same for the CHOICE |
| `TblRoundTrip.TypeDefRoundTrip` | c-lib/boot/tbl.c:1062-1170 | the same for a type definition |
| `TblRoundTrip.ModuleRoundTrip` | c-lib/boot/tbl.c:1312-1406 | the same for a module |
| `TblRoundTrip.TBLRoundTrip` | c-lib/boot/tbl.c:1545-1712 | every table with printable names is decoded from exactly its own octets, whatever follows them, up to what the leaf codecs make of integers and booleans |
| `TblRoundTrip.TBLRoundTripIff` | c-lib/boot/tbl.c:1545-1712 | the very same table comes back if and only if every integer in it is in the decodable domain and every boolean is 0 or 1 |
| `TblStack.EncodeAndDecode` | c-lib/boot/tbl.c:1545-1712 | through real buffers of any block size and a piece stack of any size, every table whose names can be written comes back as its leaf codecs leave it, as the very same if and only if it is canonical, and both byte counts equal the length of the encoding |
| `Hashes.MakeHash` | c-lib/src/hash.c:57-92 | the loop entered in its middle computes, modulo 2^32, the number whose digits to the base 65587 are the characters |
| `Hashes.InitHash` | c-lib/src/hash.c:122-130 | an empty trie for 32-bit hashes, for which four levels suffice |
| `Hashes.SplitAndInsert` | c-lib/src/hash.c:135-142 | a leaf becomes a table with exactly its old entry and the new one, and there is always a level left for it |
| `Hashes.Table.Insert` | c-lib/src/hash.c:148-174 | the map from hashes to values gains the entry if its hash was absent, and is unchanged otherwise; the trie stays a tree of at most `level` levels |
| `Hashes.Table.CheckForAndReturnValue` | c-lib/src/hash.c:197-216 | looks the hash up in that map |
| `Hashes.Stale` | c-lib/src/hash.c:167-168 | the hash that a slot keeps after it was split is still in its table, so the early return is right |
| `Hashes.Table.FreeHashTable` | c-lib/src/asn1init.c:30-54 | frees every table and slot exactly once, and the value of every entry of the map exactly once |
| `NibbleAllocs.NibbleMem.constructor` | c-lib/src/nibble-alloc.c:25-55 | one zeroed buffer, nothing handed out |
| `NibbleAllocs.NibbleMem.ServiceNibbleFault` | c-lib/src/nibble-alloc.c:60-88 | links in a zeroed buffer with room for the request and keeps all that was handed out |
| `NibbleAllocs.NibbleMem.NibbleAlloc` | c-lib/src/nibble-alloc.c:93-135 | refuses exactly requests above 1048576 octets; otherwise the block is zero, lies within one buffer, starts at a multiple of `sizeof(long)` unless it is empty, and is disjoint from every block since the last reset |
| `NibbleAllocs.NibbleMem.Write` | c-lib/src/nibble-alloc.c:93-135 | a client's write within its block keeps all of this |
| `NibbleAllocs.NibbleMem.ResetNibbleMem` | c-lib/src/nibble-alloc.c:141-171 | frees exactly the buffers after the first, each once, and leaves the first one all zero |
| `Utf8Strings.FollowersByMask` | c-lib/src/asn-UTF8String.c:19-26 | a row of the table matches exactly the first octets of its form |
| `Utf8Strings.IsValidUTF8String` | c-lib/src/asn-UTF8String.c:82-118 | accepts exactly the octets that are characters one after the other, each with first and following octets in the literal ranges |
| `Utf8Strings.CvtUTF8towchar` | c-lib/src/asn-UTF8String.c:136-222 | returns exactly the characters up to the first NUL and a terminator, or -3 and no string exactly when they do not decode |
| `Utf8Strings.DecodeIff` | c-lib/src/asn-UTF8String.c:136-222 | what is decoded as which characters, malformed octets included: by the values of the octets and the place values of their bits |
| `Utf8Strings.CvtWchar2UTF8` | c-lib/src/asn-UTF8String.c:224-287 | fills the buffer with the octets of all characters up to the first zero, within six octets each, padded with NULs; -3 and no string exactly when a character is negative or above 0x07FFFFFF |
| `Utf8Strings.DecodeEncode` | c-lib/src/asn-UTF8String.c:136-287 | every string of characters up to 0x07FFFFFF is decoded from its octets, of which there are at most six a character |
| `Utf8Strings.Inverse` | c-lib/src/asn-UTF8String.c:136-287 | for strings without a zero character the result of one converter, with its terminator and padding, is what the other one turns back |
| `Utf8Strings.ThereAndBack` | c-lib/src/asn-UTF8String.c:82-287 | both converters in turn give the string back, and what is between them passes the validity test |
| `Utf8Strings.ValidityAgrees` | c-lib/src/asn-UTF8String.c:82-222 | called on the same octets, the validity test and the converter decide alike if there is no NUL octet; in any case the converter accepts exactly if the octets before the first NUL are valid |
| `Utf8Strings.ShortestIff` | c-lib/src/asn-UTF8String.c:23 | a character takes as many octets as in section 2 of RFC 2279 if and only if it is not in 0x20000..0x1FFFFF |
| `Utf8Strings.FirstCharFits` | c-lib/src/asn-UTF8String.c:189-207 | every decoded character fits a non-negative 32-bit `wchar_t` |
| `Reals.SignedIntOctetLen` | c-lib/src/asn-real.c:139-155 | the length of the shortest two's-complement form |
| `Reals.MantissaOctets` | c-lib/src/asn-real.c:611-633 | the loop takes the significand apart into its octets without trailing zeros |
| `Reals.BEncAsnRealContent` | c-lib/src/asn-real.c:565-720 | prepends the contents of the specification function and returns their number |
| `Reals.WrittenIsValue` | c-lib/src/asn-real.c:565-720 | mantissa and exponent, as written, denote the double exactly |
| `Reals.FormIsMinimal` | c-lib/src/asn-real.c:565-720 | base 2 without scaling with the sign in bit 7 of the first octet, an exponent of the fewest octets, a mantissa whose first octet is at least 0x80 and whose last is not zero (section 8.5 of ITU-T X.690) |
| `Reals.SpecialContents` | c-lib/src/asn-real.c:565-600 | the infinities are 0x40 and 0x41, and zero has no contents |
| `Reals.BDecAsnRealContent` | c-lib/src/asn-real.c:739-859 | contents of all bases, scale factors and exponents of one to three octets are read as the specification function says, with the mantissa accumulated, scaled and multiplied by the power in doubles, and with the jumps; too few octets end in a jump or a read error |
| `Reals.DecodedValue` | c-lib/src/asn-real.c:777-854 | for all contents of base 2, 8 and 16 with any scale factor: where doubles hold the mantissa, the scaled mantissa, the power and the result, the result is that number, with the sign of the first octet |
| `Reals.DecodedExtremes` | c-lib/src/asn-real.c:847 | where the power is too large for a double the result is infinite, or not a number for a zero mantissa, and where it is too small, zero |
| `Reals.RoundNearest` | c-lib/src/asn-real.c:817-847 | a number that does not fit is rounded to a nearest double, of two at the same distance to the one with the even significand |
| `Reals.RoundIsDouble` | c-lib/src/asn-real.c:817-847 | what is rounded is a double, unless it is infinite |
| `Reals.DecRealEncReal` | c-lib/src/asn-real.c:565-859 | a double comes back as the same number if and only if the exponent written with its mantissa is at least -1074, and as zero otherwise; zero and the infinities come back; exactly their octets are consumed |
| `Reals.RoundExact` | c-lib/src/asn-real.c:817-847 | rounding to the nearest double, a half to the even one, does not change a number that a double can represent, however it is written |
| `Reals.MantissaRead` | c-lib/src/asn-real.c:817-822 | the mantissa octets of a double are accumulated in doubles without any loss |
| `Reals.LargeEnough` | c-lib/src/asn-real.c:847 | every double of magnitude 2^-1019 or more comes back |
| `Reals.SmallestIsLost` | c-lib/src/asn-real.c:847 | 2^-1074 comes back as zero |
| `Reals.NormalIsLost` | c-lib/src/asn-real.c:847 | so does the normal double (2^52 + 1) * 2^-1074 |
| `Reals.EncodeAndDecode` | c-lib/src/asn-real.c:565-859 | the same if and only if, through real buffers of any block size |
| `AsnLists.AsnList.Remove` | c-lib/src/asn-list.c:87-110 | removes the current element of the sequence and moves the cursor to the next one; `prev` and `next` stay mutually inverse, ends and count right |
| `AsnLists.AsnList.Add` | c-lib/src/asn-list.c:118-144 | inserts after the cursor and makes the new element current; refused exactly off the list |
| `AsnLists.AsnList.Insert` | c-lib/src/asn-list.c:152-178 | inserts before the cursor and makes the new element current; refused exactly off the list |
| `AsnLists.AsnList.Prev` | c-lib/src/asn-list.c:205-220 | backs up by one, from off the list to the last element |
| `AsnLists.PrevUndoesNext` | c-lib/src/asn-list.c:205-242 | backing up and moving on undo each other, onto and off the list as well |
| `AsnLists.RetreatVisits` | c-lib/src/asn-list.c:205-220 | repeated backing up visits the elements backwards |
| `AsnLists.AsnList.Next` | c-lib/src/asn-list.c:227-242 | moves on by one, from off the list to the first element |
| `AsnLists.AsnList.Prepend` | c-lib/src/asn-list.c:285-311 | puts an element in front and makes it current |
| `AsnLists.AsnList.Append` | c-lib/src/asn-list.c:318-344 | puts an element behind and makes it current |
| `AsnLists.AsnList.Concat` | c-lib/src/asn-list.c:401-422 | joins two disjoint lists into one proper list and moves the cursor only if the first was empty |
| `AsnLists.AsnList.GetElmtIndex` | c-lib/src/asn-list.c:430-453 | the first index of the element or -1, with the cursor where it was |
| `AsnLists.RemoveUndoes` | c-lib/src/asn-list.c:87-344 | whatever way an element was put in, it is current, and removing it restores the sequence |
| `AsnLists.AdvanceVisits` | c-lib/src/asn-list.c:227-242 | from off the list, repeated moves visit all elements in order and end off the list |
| `RefGraphs.StuckNotSorted` | compiler/core/dependency.c:228-302 | a set in which every type needs another of the set is never sorted |
| `RefGraphs.RestIsGreatest` | compiler/core/dependency.c:228-302 | what the sorter leaves is the greatest such subset of its input |
| `RefGraphs.SplitUnique` | compiler/core/dependency.c:228-302 | so what is sorted and what is left does not depend on the order of the input |
| `RefGraphs.RestIffCycle` | compiler/core/dependency.c:228-302 | something is left if and only if the input has a cycle of two or more types |
| `TypeRefs.RefsFound` | compiler/core/dependency.c:465-570 | the local, the followed and the weighted references of a type are exactly those to which a path through its elements leads, in the order of the paths; each of the three kinds of path is written out by itself |
| `Dependencies.BuildLocalRefList` | compiler/core/dependency.c:465-506 | appends a type definition if and only if a path through SEQUENCE, SET, CHOICE, object class and list elements leads to a local reference to it |
| `Dependencies.BuildWeightedLocalRefList` | compiler/core/dependency.c:517-570 | appends a type definition if and only if a path through SEQUENCE, SET and CHOICE elements, and through list types without C type information, leads to a local reference to it that is no pointer in C++ or in C |
| `Dependencies.GetElmtIndex` | compiler/core/dependency.c:577-604 | the first index of the definition or -1, with the list's cursor put back |
| `Dependencies.RemoveAndSortIndependents` | compiler/core/dependency.c:228-302 | terminates, and splits the input exactly into a part in which each type comes after what it needs of the input, and a part in which each type needs another |
| `Dependencies.Module.TakeNonRecursive` | compiler/core/dependency.c:364-387 | divides the list by the recursive flag, losing nothing |
| `Dependencies.Module.TakeCLists` | compiler/core/dependency.c:408-436 | frees every reference list once and takes exactly the C list types out |
| `Dependencies.Module.SortRecursive` | compiler/core/dependency.c:405-455 | the list types of C first; each other type comes after those it holds by value, except for types in sets in which each holds another by value |
| `Dependencies.Module.SortTypeDefs` | compiler/core/dependency.c:335-459 | dereferences a missing node if and only if something is left and nothing of it is flagged; reports the failed sort if and only if the part that is not flagged has a cycle of its own; otherwise a permutation with the orders that its comment promises |
| `Dependencies.Module.FinalOrder` | compiler/core/dependency.c:128-199 | the four groups in a row are in order when the third is, given accurate reference counts |
| `Dependencies.Module.SortTypeDependencies` | compiler/core/dependency.c:128-199 | the same for the whole module, by-value order included, in terms of its references alone; library types come first, then types without local references, then what was sorted, and last what nothing refers to; every reference list that was made is freed |
| `Dependencies.Module.GroupMeans` | compiler/core/dependency.c:143-170 | the four groups, by library type, reference count and whether a path leads to a local reference |
| `Dependencies.Module.NeedsLocally` | compiler/core/dependency.c:465-506 | which type must come before which in the module: the other type to which a path of local references leads |
| `Recursives.MkRecType` | compiler/core/recursive.c:110-202 | terminates on every finite type graph, marks the type if and only if a path of distinct types leads back to it, and restores the marks of entered types |
| `Recursives.MarkRecursiveTypes` | compiler/core/recursive.c:76-91 | flags exactly the types that refer to themselves, directly or through others |
| `Recursives.RefersToItselfIff` | compiler/core/recursive.c:110-202 | a type refers to itself if and only if some way along references, local or imported, leads back to it, whether or not it passes other types more than once |
| `Recursives.MarkedAccurate` | compiler/core/recursive.c:76-91 | without information object classes, every type on a local cycle is then flagged |
| `Recursives.AccurateSorts` | compiler/core/dependency.c:389-410 | with accurate flags the failed-sort branch is not reached and the list is not empty where it is dereferenced |
| `Recursives.TwoClassesCrash` | compiler/core/recursive.c:195-201 | two information object classes with a field of each other's type: neither is flagged, and sorting the module dereferences a missing node |
| `Recursives.MarkAndSort` | compiler/core/dependency.c:128-199 | marking and then sorting dereferences a missing node if and only if something cannot be sorted and none of it refers to itself, and reports the failed sort if and only if the part of it that does not refer to itself has a cycle; otherwise every type that does not refer to itself comes after all other local types it references; without information object classes neither failure occurs |
| `DefinedObjects.DefinedObjs.UndefineObj` | compiler/core/define.c:126-144 | removes every match (its comment says the first one only) |
| `DefinedObjects.DefinedObjs.ObjIsDefined` | compiler/core/define.c:152-159 | whether some object of the list matches |
| `DefinedObjects.UndefineUndoes` | compiler/core/define.c:107-144 | undefining undoes a definition if and only if nothing like it was defined before |
| `EffectiveTags.GetTags` | compiler/back-ends/tag-util.c:102-248 | the tags of the recursive specification, stolen or not, and the exit exactly at an untagged alternative that is no CHOICE |
| `EffectiveTags.EffectiveForms` | compiler/back-ends/tag-util.c:236-243 | unless stolen, the tags are exactly tag `j` of the `i`-th type along the references for all `i` and `j`, in order, but for each first one with an IMPLICIT on a type before it and no tags in between; so many are they; all forms are constructed but the last, which is the library type's (section 31 of ITU-T X.680) |
| `EffectiveTags.CountTags` | compiler/back-ends/tag-util.c:285-343 | the number of tags written along the references less those that an IMPLICIT replaces |
| `EffectiveTags.EffectiveAlong` | compiler/back-ends/tag-util.c:130-160 | the effective tags are those along the chain of references that no IMPLICIT replaces, in order |
| `EffectiveTags.UntaggedChoiceIff` | compiler/back-ends/tag-util.c:164-176 | a type is an untagged CHOICE if the chain has no effective tag and ends at a CHOICE |
| `EffectiveTags.FirstFound` | compiler/core/err-chk.c:611-696 | the tags that a value can begin with are exactly those to which a path of alternatives leads through untagged CHOICEs, each the first effective one there, in order |
| `EffectiveTags.CountAgrees` | compiler/back-ends/tag-util.c:285-343 | that is the length of what `GetTags` returns, and 0 where tags were stolen |
| `EffectiveTags.ExitsIff` | compiler/back-ends/tag-util.c:168-206 | `GetTags` exits if and only if the type is an untagged CHOICE and an alternative, flattened through untagged CHOICEs, has no effective tags and is no CHOICE |
| `EffectiveTags.RecursiveChoice` | compiler/back-ends/tag-util.c:102-248 | a CHOICE that refers back to itself in a tagged alternative is in the domain of all of this, and its tags are those of its two alternatives |
| `EffectiveTags.RulesNarrow` | compiler/core/lib-types.c:63-147 | under the distinguished rules every type has the tags that it has under the basic rules, stolen or not, but for forms that become primitive where they were open; and `GetTags` exits under both or neither |
| `EffectiveTags.StolenAreFirst` | compiler/back-ends/tag-util.c:164-229 | stolen tags agree in class and code with the tags the CHOICE can begin with |
| `EffectiveTags.StolenDistinct` | compiler/back-ends/tag-util.c:164-229 | where no flattened alternative is without tags, they are distinct if and only if `HasDistinctTags` accepts the alternatives |
| `TagChecks.AddFirstTag` | compiler/core/err-chk.c:611-696 | defines the tags a value can begin with, in order, until one is defined already |
| `TagChecks.AddTagsIff` | compiler/core/err-chk.c:611-696 | that succeeds if and only if those tags are pairwise distinct and disjoint from the ones defined |
| `TagChecks.HasDistinctTags` | compiler/core/err-chk.c:586-604 | accepts exactly the lists in which no two paths through untagged CHOICEs lead to first tags of the same class and code |
| `TagChecks.AcceptedIsUnambiguous` | compiler/core/err-chk.c:586-696 | for an accepted CHOICE in which no flattened alternative is without tags, `GetTags` comes to its end, the stolen tags are distinct and no tag begins two alternatives (section 29 of ITU-T X.680) |
| `TagChecks.AcceptedButExits` | compiler/core/err-chk.c:694-695 | the error checker accepts `CHOICE { a NULL, b ANY }`, and `GetTags` exits for it |
| `TagChecks.ChkSeqTags` | compiler/core/err-chk.c:864-898 | an error if and only if, from some element on, all up to another one are OPTIONAL or have a DEFAULT, that one as well or else one of those before it has first tags, and two paths within them lead to the same first tag |
| `FieldNames.ParanoidGetType` | compiler/core/snacc-util.c:636-671 | terminates on circular references and returns the type at the end of the chain of references that begins at the type, if there is such a chain, and whose it is; otherwise the type itself |
| `FieldNames.ChkFieldNamesRec` | compiler/core/err-chk.c:704-760 | goes by the list's own cursor; terminates by the names not yet followed and then the size of the embedded type; fails exactly where the cursor of a list is gone when its loop is to move on; otherwise restores the followed names, leaves the cursors of exactly the lists gone through off their lists, and defines and warns as the recursive specification says |
| `FieldNames.FieldsFound` | compiler/core/err-chk.c:704-760 | the names defined are exactly those to which a path of elements leads, in order: each element before the last has no name and is a CHOICE, or refers to one by a name that is not yet followed |
| `FieldNames.LeadsByIff` | compiler/core/err-chk.c:735-758 | those two cases, written out, are the ones in which the check goes into an element |
| `FieldNames.BreaksIff` | c-lib/include/asn-list.h:58-60 | that failure occurs if and only if a chain of unnamed references by names not yet followed, and of unnamed CHOICEs, comes back to a list that it is in |
| `FieldNames.NoAliasNoReentry` | compiler/core/err-chk.c:735-751 | it never occurs where every unnamed reference goes by the name of the definition that it leads to |
| `FieldNames.AliasReenters` | compiler/core/err-chk.c:735-751 | it occurs for `A ::= CHOICE { a NULL, [1] C }` with `C ::= A` |
| `FieldNames.NoteIff` | compiler/core/err-chk.c:704-760 | there is a warning if and only if two fields of the scope share a name |
| `FieldNames.ChkFieldNames` | compiler/core/err-chk.c:767-786 | for any type definition, fails if and only if such a chain begins with it, and otherwise warns if and only if two paths lead from it to elements of the same name |
| `FieldNames.FieldsBound` | compiler/core/err-chk.c:704-760 | the finite set of names that the termination argument needs has no influence on the fields |

## Left out

- Indefinite-length mode of the table codec: its decoder expects two end-of-contents pairs.
- `ExpBufResetInReadMode`, the peeking routines, `ExpBufCopyAny`, and buffers left over from an earlier encode.
- OctetStrings.StrStk.Push: holds copies of the pieces where the code holds addresses into the buffer, so that moving or freeing the buffer is not modelled.
- Tables are decoded into values, not into structures that are filled in place.
- DefinedObjects.DefinedObjs.UndefineObj: the list of defined objects is a sequence from its head on, without its nodes.
- Reals.DecRealEncReal: a negative zero comes back as zero, the number but not the sign; NaN, for which the encoder has no result of its own.
- Recursives.MkRecType: the warnings about infinitely recursive types, with the flags `optional` and `empty` they need.
- Recursives.MarkedAccurate: excludes types with information object classes, whose references are sorted by but not followed when types are marked; `Recursives.TwoClassesCrash` shows that it fails for them, and `Recursives.MarkAndSort` covers them.
- By-value order between a recursive and a non-recursive type, which the sorter does not establish.
- EffectiveTags.GetTags: choice ids above 39, for which the form is read past the end of the library table; tags with a referenced value instead of a literal.
- EffectiveTags.StolenAreFirst, like the other members about tags: circular chains of references, and CHOICEs that lead back to themselves without a tag on the way, for which `GetTags` calls itself without end.
- TagChecks.HasDistinctTags: which element is remembered for the error message.
- FieldNames.ChkFieldNames: the wording of the warnings.
- The walk of `ErrChkBasicType` over all types, whose own loop over a CHOICE a check of an embedded CHOICE can disturb in the same way as `ChkFieldNames` disturbs itself.
- Hashes.Table.Insert: an element whose hash is present is dropped; who frees it is not modelled. `CheckFor`, which takes the address of the slot.
- BIT STRING, relative OID, decimal and long-exponent REAL, the IEEE-specific REAL encoders, DER set sorting.
- Character string types other than PrintableString and UTF8String, whose tests are single loops over OCTET STRING.
- Failing allocations, printing, freeing of decoded values, and everything that reads or writes files.
