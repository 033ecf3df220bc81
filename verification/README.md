# ScyllaDB Node.js driver: verified core

A Dafny model of the parts of the driver that are computation or small step machines, with proofs of what they
promise. Each module follows one component; `dafny verify dfyconfig.toml` checks everything.

- **Value codec** (`Varint`, `Integer*`, `VInt*`, `Duration*`, `Codec*`, `Wire*`, `Rows`): the recursive encoder and
  decoder of CQL values (sections 6 and 7 of the CQL binary protocol v4 specification), the two varint encoders, the
  two vint encoders, the multi-precision `Integer`, durations, and pages of rows.
- **Mapper** (`RadixModel`, `RadixTree`, `MapperValues`, `Statements`, `QueryText`, `QueryMeaning`, `QueryBuilders`,
  `QueryEffects`, `CacheKey`, `CachedStatements`, `CachedMutations`, `ObjectSelector`, `TableChoice`): documents
  compiled to statements and parameter getters, cached in a radix tree under a shape key. Statements are given meaning
  by an independent reader that takes one parameter at every marker, and by what they select from, order and write to
  arbitrary rows.
- **Printers and parsers** (`TypeNames*`, `Inet*`, `DurationText`, `DurationUnits`, `LetterCase`): CQL type names, IP
  addresses (the text forms of section 2.2 of RFC 4291 and section 4.2 of RFC 5952), durations.
- **Step machines** (`ResultGroup`, `StreamExecutor`, `ArrayExecutor`, `ClientLifecycle`, `Timestamps`): classes whose
  methods are the uninterrupted stretches between awaits; the invariant every method keeps therefore holds in every
  run, whatever the order of events.
- **Ring and plan** (`TokenRanges`, `Shuffle`, `HostOrder`, `LoadBalancing`, `RoundRobin`).

Code that computes a value is a function with lemmas; code that updates fields, buffers or arrays is a method or a
class proved against a function or an outright property.

Where the code does less than its documentation or a reader would expect, the code is kept and the exact condition is
proved: `IntegerText.ExactExactly` (multiplication), `InetRuns.RoundTripByRuns` and `InetReading.DeterminedExactly`
(IPv6 text), `RoundRobin.EachFirstOnceExactly` (the counter's wrap-around), `CachedMutations.UpdateKeyDetermines`,
`CachedMutations.RemoveKeyDetermines` and `CachedMutations.UpdateMeetsRemove` (cache keys),
`ObjectSelector.MiscountExactly` and `ObjectSelector.FindServesGet` (choice of tables), `QueryMeaning.UpdateMeaning`
and its siblings (statements), `DurationText.TextRoundTrip` (durations of mixed sign), `TypeNamesRoundTrip.RoundTrip`
(empty tuples), `TokenRanges.SplitPartitions` (splits at the minimum token), `RadixTree.EveryRunCounts` (the tree's
`length`), `VIntCoding.PackedIsEncoding` (lengths of 2^31 and more). The comment in
`lib/types/inet-address.ts:175-178` promises compression according to RFC 5952; the code compresses the span its scan
ends with, also a single zero group.

Modelling choices: bytes are integers 0 to 255 and bit operations are arithmetic; exceptions are `Err`, `None` or an
error value; tokens of any partitioner, totally ordered and countable, are real numbers; clocks, random draws, session
outcomes, host states and split points are parameters; a value handler or a mapping function returns a value and does
not call back.

## Model

| member | source | states |
|---|---|---|
| Varint.EncodeBigInt | lib/encoder.js:900-944 | The BigInt varint encoder's bytes are the shortest two's complement string of the number, for every integer. |
| Varint.DecodeBigInt | lib/encoder.js:405-421 | The BigInt decoder returns the two's complement value of any non-empty byte string, minimal or not (-1 for an empty one). |
| Varint.MinimalIsShortest | lib/encoder.js:900-944 | No byte string with the same value is shorter than a minimal one. |
| Varint.MinimalIsUnique | lib/encoder.js:872-944 | Two minimal strings of one integer are equal, so independent encoders that produce minimal strings agree byte for byte. |
| Varint.ExactlyTheSignExtensions | lib/encoder.js:396-421 | The strings that denote an integer are exactly the sign extensions of its minimal string. |
| IntegerArithmetic.New | lib/types/integer.js:35-58 | Pruning keeps the value and leaves a canonical representation (no redundant top piece). |
| IntegerArithmetic.ValidIsCanonical | lib/types/integer.js:35-58 | Two constructed Integers with the same value have the same pieces and sign. |
| IntegerArithmetic.FromNumber | lib/types/integer.js:84-97 | An integral Number becomes an Integer of exactly that value. |
| IntegerArithmetic.FromBits | lib/types/integer.js:107-111 | The Integer denotes the two's complement value of the pieces. |
| IntegerArithmetic.Add | lib/types/integer.js:465-485 | Addition through 16-bit halves with carries is exact over the integers, for operands of any length. |
| IntegerArithmetic.Not | lib/types/integer.js:628-634 | Complementing every piece and the sign gives -v - 1. |
| IntegerArithmetic.Negate | lib/types/integer.js:457-459 | Negation is exact. |
| IntegerArithmetic.Subtract | lib/types/integer.js:491-493 | Subtraction is exact. |
| IntegerArithmetic.IsZero | lib/types/integer.js:344-353 | True exactly for the value 0. |
| IntegerArithmetic.Compare | lib/types/integer.js:423-431 | The result has the sign of the difference of the values. |
| IntegerMultiplication.RunTotal | lib/types/integer.js:523-546 | Along the double loop, cells plus dropped carries plus products still to come is constant: the product equals the cells' value plus what carrying dropped. |
| IntegerMultiplication.RunIsNormal | lib/types/integer.js:523-546 | After the double loop every cell is back below 2^16 (no carry is left pending). |
| IntegerMultiplication.OnePieceDropsNothing | lib/types/integer.js:252-257 | With one operand of a single piece no carry reaches 2^32, so nothing is dropped. |
| IntegerMultiplication.NothingDroppedExactly | lib/types/integer.js:252-257 | The double loop drops nothing if and only if every cell stays below 2^32 at every addition. |
| IntegerMultiplication.LowHalvesFit | lib/types/integer.js:523-546 | When all upper halves of the one operand, or all halves of the other, are below 0xfffe, no cell reaches 2^32. |
| IntegerText.Carry16 | lib/types/integer.js:252-257 | The carry loop, which does not advance its index, leaves one turn's effect: the upper half of the cell moves to the next cell, a multiple of 2^32 is lost. |
| IntegerText.MultiplyCells | lib/types/integer.js:523-546 | The in-place double loop computes the run of the specification on its array. |
| IntegerText.CombineCells | lib/types/integer.js:548-554 | Joining the 16-bit cells in place gives 32-bit words of the same value. |
| IntegerText.MultiplyPieces | lib/types/integer.js:523-556 | The product of two magnitudes less what was dropped. |
| IntegerText.Multiply | lib/types/integer.js:499-556 | multiply returns the product of the magnitudes less the deficit, with the product's sign, through every sign case and the small-number shortcut. |
| IntegerText.ExactExactly | lib/types/integer.js:499-556 | multiply is exact if and only if an operand is zero, both magnitudes are below 2^24, or no cell reaches 2^32 as the partial products are added, the guard under which the carry loop loses nothing. |
| IntegerText.LowHalvesAreExact | lib/types/integer.js:499-556 | multiply is exact whenever no 32-bit piece of the first magnitude has an upper half of 0xfffe or more, or no 16-bit half of the second is that large. |
| IntegerText.SmallOperandIsExact | lib/types/integer.js:499-556 | multiply is exact whenever one magnitude is below 2^32. |
| IntegerText.MultiplyCanBeWrong | lib/types/integer.js:252-257 | 0xFFFFFFFF80000000 * 0xFFFFFFFFFFFFFFFF comes out wrong. |
| IntegerText.FromString | lib/types/integer.js:119-152 | For every text of decimal digits behind any number of minus signs the Integer is exactly the number denoted; it fails only on text that denotes none. |
| IntegerBuffer.FromBuffer | lib/types/integer.js:159-190 | The Integer of any non-empty two's complement string has the string's value; partial top words included. |
| IntegerBuffer.ToBuffer | lib/types/integer.js:197-245 | The buffer is the shortest two's complement string of the value. |
| IntegerBuffer.EncodersAgree | lib/encoder.js:872-944 | The Integer and the BigInt varint encoders give the same bytes for every integer, and each decoder recovers it from the other's bytes. |
| IntegerBuffer.RoundTrip | lib/types/integer.js:159-245 | fromBuffer(toBuffer(v)) is v itself, piece by piece. |
| VInt.DecodeUndoesEncode | lib/utils.js:1029-1144 | Anywhere in a buffer, whatever follows, the encoding of an unsigned 64-bit number decodes to it and ends after it. |
| VIntCoding.LeadingZeros32 | lib/utils.js:1147-1171 | The shift cascade counts the leading zeros of a 32-bit number. |
| VIntCoding.LeadingZeros64 | lib/utils.js:1076-1107 | The 64-bit count built on it. |
| VIntCoding.ComputeSize | lib/utils.js:1052-1056 | The size is the number of bytes the format needs, 1 to 9. |
| VIntCoding.WriteUnsigned | lib/utils.js:1038-1070 | The bytes written at the front of the buffer are the encoding, and the stale bytes behind it are untouched. |
| VIntCoding.ReadUnsigned | lib/utils.js:1124-1144 | The number is the decoding at the offset and the offset moves past it; a short buffer fails. |
| VIntCoding.ZigZagInverse | lib/utils.js:1013-1022 | The zigzag maps are inverse on every int64. |
| VIntCoding.VIntRoundTrip | lib/utils.js:1029-1117 | Every int64 is read back from its 1 to 9 bytes, consuming exactly them, whatever surrounds them. |
| VIntCoding.UvintPack | lib/utils.js:1218-1249 | The packing loop computes the specified bytes for every safe integer, 32-bit shifts included. |
| VIntCoding.PackedIsEncoding | lib/utils.js:1218-1249 | The packer writes what the unsigned vint writer writes if and only if the length is below 2^31. |
| VIntCoding.PackingFailsAtTwo31 | lib/utils.js:1218-1249 | At 2^31 the two writers differ. |
| VIntCoding.UvintUnpack | lib/utils.js:1194-1212 | The unpacking loop computes the specified length and size, wrapping at 32 bits. |
| VIntCoding.UnpackUndoesPack | lib/utils.js:1194-1249 | For every 0 <= v < 2^31 unpacking the packed length, with any bytes after it, gives v and its size. |
| Durations.FieldsAreRead | lib/types/duration.js:60-84 | Three int64 values in a row are read back as a duration exactly when the first two fit 32 bits, which is what the constructor insists on; otherwise reading fails. |
| Durations.ReusableBuffers.ToBuffer | lib/types/duration.js:159-181 | The bytes are the three vints, whatever earlier calls left in the shared buffers. |
| Durations.FromBuffer | lib/types/duration.js:230-236 | Three vints are read in order, each from where the last ended. |
| Durations.BinaryRoundTrip | lib/types/duration.js:159-236 | fromBuffer(toBuffer(d)) = d for every duration, with any bytes behind. |
| Durations.Builder.Add | lib/types/duration.js:414-500 | A call is accepted exactly when its unit is finer than the last one and the total stays in range; the totals are updated exactly. |
| Durations.BuildsTheSums | lib/types/duration.js:371-614 | From a new builder a sequence of calls is accepted exactly when its units are ordered and each field's sum is in range, and then build does not throw and gives the sums, negated if asked. |
| Durations.Built | lib/types/duration.js:609-614 | Building never throws from a state the accepted calls lead to. |
| Durations.ExceedsExactly | lib/types/duration.js:432-480 | The truncated-division range check accepts exactly the units that keep the total within the limit. |
| Durations.AddingKeepsRange | lib/types/duration.js:432-480 | Every accepted call keeps months, days and nanoseconds within their ranges. |
| Durations.AcceptedExactly | lib/types/duration.js:371-614 | A sequence of calls is accepted exactly when its units are strictly ordered and no field's total leaves its range; the builder then holds the totals. |
| DurationText.ToString | lib/types/duration.js:187-223 | toString prints the mixed-radix parts of the three fields, with one sign in front. |
| DurationText.ParseStandardFormat | lib/types/duration.js:286-294 | The match loop feeds every number-and-unit match to a builder, in order; a rejected one fails. |
| DurationText.ScanUndoesWritten | lib/types/duration.js:286-294 | Scanning a printed list of parts gives the parts back. |
| DurationText.SplitAddsUp | lib/types/duration.js:187-223 | The printed parts of a field add up to it. |
| DurationText.TextRoundTrip | lib/types/duration.js:187-294 | fromString(toString(d)) = d if and only if no two fields have opposite signs. |
| DurationText.MixedSignsAreLost | lib/types/duration.js:187-223 | One month less one day is not read back from its text. |
| DurationUnits.UnitsDenote | lib/types/duration.js:22-29 | A text with a number of every unit is read, when months and days fit 32 bits and nanoseconds 64, as 12 months to the year, 7 days to the week, 3600000000000 nanoseconds to the hour and so on down, else rejected; with a minus sign all three are negated and one more fits. |
| DurationUnits.TextIs | lib/types/duration.js:187-223 | The printed text spelled out: years and remaining months, days, hours, minutes, seconds, milli-, micro- and nanoseconds by division with the literal factors, zero parts left out, one sign. |
| DurationUnits.CaseIgnored | lib/types/duration.js:29-29 | Texts that differ only in letter case are read as the same duration, or none. |
| CodecRoundTrip.RoundTrip | lib/encoder.js:466-1423 | For every nested type and every well-typed value that encodes, decoding the bytes gives the value: structural induction over lists, sets, maps, tuples, user types and vectors. |
| CodecRoundTrip.FixedSize | lib/encoder.js:1353-1387 | A type given a fixed size n (exactly those of WireFormat.FixedExactly) encodes every well-typed value to exactly n bytes. |
| WireFormat.FixedExactly | lib/encoder.js:1353-1387 | A size is given exactly to boolean (1), int and float (4), bigint, timestamp and double (8), uuid and timeuuid (16), and vectors of such types (the element's size times the dimension). |
| WireFormat.VectorWire | lib/encoder.js:1395-1423 | A vector encodes exactly when it has the dimension, is not empty and every element has bytes; they are concatenated as they are for the listed fixed types, and for every other type each follows its length as an unsigned vint. |
| WireFormat.ListWire | lib/encoder.js:1110-1147 | A list or set encodes exactly when no item is missing, all have bytes and all lengths fit: the count and each item behind its length, of four bytes from version 3 on and two before; an empty one is null. |
| WireFormat.MapWire | lib/encoder.js:1169-1229 | A map encodes exactly when no key or value is missing and all lengths fit: the count, then key and value in turn behind their lengths; a value without bytes counts as empty. |
| WireFormat.TupleWire | lib/encoder.js:1267-1298 | A tuple encodes exactly when its members do: each, of its own type, behind four bytes of length, or the length -1. |
| WireFormat.UdtWire | lib/encoder.js:1235-1263 | A user type encodes its fields in the order of the type, each behind four bytes of length, or the length -1. |
| WireFormat.MemberMeans | lib/encoder.js:1239-1241 | The field's value is the object's property of that name, or undefined. |
| WireFormat.LeafWire | lib/encoder.js:645-1108 | The bytes of every well-typed leaf are exactly those the protocol reads as it: widths, two's complement, shortest varint, scale before unscaled value, three zig-zag vints. |
| WireFormat.MissingWire | lib/encoder.js:2290-2312 | Unset needs protocol version 4; undefined is unset from version 4 on when the option says so, else null; null is null. |
| WireFormat.OnlyMissing | lib/encoder.js:2290-2315 | Nothing else encodes to unset, and to null only the empty list or set. |
| WireFormat.EmptyCell | lib/encoder.js:2260-2270 | An empty cell is null for every type but text, blob and vector. |
| WireFormat.NumberRead | lib/encoder.js:302-460 | Numbers are read from the first bytes of any cell, and fail on a short one; any first byte but zero is true. |
| WireFormat.OpaqueRead | lib/encoder.js:302-460 | Only uuids and addresses insist on the length of their cell. |
| WireFormat.VectorBytesExact | lib/encoder.js:1305-1346 | A vector of fixed-size elements is read from exactly as many bytes as they take. |
| WireReading.MapRead | lib/encoder.js:508-548 | Any map below 2 GiB is read as its entries set one after the other, a negative value length as null. |
| WireReading.SetEntryMeans | lib/encoder.js:536-545 | Setting a key gives it the value and no other key another one. |
| WireReading.SetEntryKeys | lib/encoder.js:536-545 | A new key comes last and one that is there keeps its place. |
| WireReading.LastCounts | lib/encoder.js:508-548 | Of repeated keys the last entry counts. |
| CodecRoundTrip.UdtGrows | lib/encoder.js:583-609 | A value written before its user type got more fields is read under the new type as itself. |
| CodecRoundTrip.TupleGrows | lib/encoder.js:616-638 | A tuple written before its type got more elements is read with undefined in their place. |
| CodecRoundTrip.LeafRoundTrip | lib/encoder.js:302-460 | The leaf codecs round-trip. |
| CodecSize.EncodingSucceeds | lib/encoder.js:1110-1423 | Every well-typed value whose wire size is below 2 GiB encodes, to exactly its wire size. |
| CodecSize.CodecLaw | lib/encoder.js:2260-2357 | Encoding succeeds and decoding undoes it, for every well-typed value below 2 GiB, under every protocol version from 3 on and every option. |
| CodecMethods.EncodeValue | lib/encoder.js:2290-2357 | The dispatch of encode, with its null, unset and buffer shortcuts, computes the specified bytes or failure. |
| CodecMethods.EncodeListLoop | lib/encoder.js:1110-1147 | The loop over the items computes the specified bytes or failure. |
| CodecMethods.EncodeMapLoop | lib/encoder.js:1169-1229 | The loop over the entries computes the specified bytes or failure. |
| CodecMethods.EncodeTupleLoop | lib/encoder.js:1267-1298 | The loop over the members computes the specified bytes or failure. |
| CodecMethods.EncodeUdtLoop | lib/encoder.js:1235-1263 | The loop over the fields computes the specified bytes or failure. |
| CodecMethods.EncodeVectorLoop | lib/encoder.js:1395-1423 | The loop over the elements computes the bytes that WireFormat.VectorWire spells out, or fails exactly when they do not exist. |
| CodecMethods.DecodeValue | lib/encoder.js:2260-2283 | The dispatch of decode computes the specified value or failure. |
| CodecMethods.DecodeListLoop | lib/encoder.js:466-487 | The offset loop computes the specified items or failure. |
| CodecMethods.DecodeMapLoop | lib/encoder.js:508-548 | The offset loop computes the specified entries or failure. |
| CodecMethods.DecodeTupleLoop | lib/encoder.js:616-638 | The offset loop computes the specified members or failure. |
| CodecMethods.DecodeUdtLoop | lib/encoder.js:583-609 | The offset loop computes the specified fields or failure. |
| CodecMethods.DecodeVectorLoop | lib/encoder.js:1305-1346 | The offset loop computes the elements, or fails: what VectorWire lays out is read back (RoundTrip) and other lengths are not (VectorBytesExact). |
| CodecMethods.EncodeVarint | lib/encoder.js:872-944 | Whichever varint encoder the options select, the bytes are the same. |
| CodecMethods.DecodeVarint | lib/encoder.js:396-421 | Whichever varint decoder the options select, the integer is the same. |
| Rows.FrameReader.ReadLengthField | lib/reader.js:53-69 | The next four bytes as a signed length, or failure past the end. |
| Rows.FrameReader.Read | lib/reader.js:36-50 | The next bytes, or the rest of the buffer. |
| Rows.FrameReader.ReadBytes | lib/reader.js:76-83 | A length-prefixed cell; nothing for a negative length. |
| Rows.DecodeRows | lib/encoder.js:2238-2257 | The double loop computes the specified rows, or fails. |
| Rows.PageIsRead | lib/encoder.js:2238-2257 | On a page of length-prefixed cells every row is the decoding of its cells in place, and the whole page is consumed. |
| Rows.TableRoundTrip | lib/encoder.js:2238-2357 | Sending a table of well-typed values and nulls as a page and decoding the page gives the table back. |
| RadixTree.Tree.GetOrCreate | lib/mapping/tree.js:41-107 | On the mutated nodes: a present key returns its value without a handler call; an absent one is added with exactly one handler call and nothing else changes; the tree stays valid (sibling edges start differently, value-less inner nodes branch, length is at most the number of keys); length counts the key unless it is empty or a fork of stored keys. |
| RadixTree.Tree.CreateBranch | lib/mapping/tree.js:109-127 | The tail of a node's key moves, with value and edges, into a new node that becomes its only edge; no other node changes. |
| RadixTree.Tree.constructor | lib/mapping/tree.js:30-33 | The empty tree is valid. |
| RadixTree.IteratorToArray | lib/mapping/tree.js:135-143 | The remaining tokens, the current one first. |
| RadixTree.Replay | lib/mapping/tree.js:41-133 | A tree taken through any sequence of calls shows the contents, length and number of handler calls of the finite map. |
| RadixTree.EveryRun | lib/mapping/tree.js:41-107 | Over every run on non-empty keys, the stored keys are those asked for, each with the value of the first call that asked for it. |
| RadixTree.EveryRunCounts | lib/mapping/tree.js:94-132 | Over every run on non-empty keys, the handler ran once per stored key, and length falls short of the number of keys by the number of fills at existing branching points. |
| RadixTree.LengthMissesAFork | lib/mapping/tree.js:103-105 | After the keys ab, ac and a, three keys are stored and length is two. |
| RadixModel.PathIsUnique | lib/mapping/tree.js:74-92 | No two nodes of a valid tree spell the same path. |
| RadixModel.KeyBehindEdge | lib/mapping/tree.js:74-92 | A stored key beyond a node lies behind its edge that starts with the key's next token, so the search may follow one edge. |
| RadixModel.BranchIsFork | lib/mapping/tree.js:103-105 | An inner node without a value sits exactly where stored keys fork. |
| QueryMeaning.SelectMeaning | lib/mapping/query-generator.js:28-81 | Reading the SELECT with the getter's parameters gives exactly the document's columns, conditions (nested `and` flattened), order and limit; every marker has its parameter and none is left. What the conditions and the order mean for rows is QueryEffects.SelectReturns. |
| QueryMeaning.InsertMeaning | lib/mapping/query-generator.js:92-166 | The INSERT reads as a statement if and only if it sets some column and no value is an `and`; without operators it sets each column to the document's value. |
| QueryMeaning.UpdateMeaning | lib/mapping/query-generator.js:178-327 | The UPDATE with its parameters means the document's assignments, key conditions and guard if and only if some column is set, some key column is bound, no key value is an operator, and not both guards are given. |
| QueryMeaning.DeleteMeaning | lib/mapping/query-generator.js:339-445 | The DELETE with its parameters means the document's columns, key conditions and guard if and only if some key column is bound, no key value is an operator, and not both guards are given. |
| QueryEffects.SelectReturns | lib/mapping/query-generator.js:28-81 | With every operator word given its meaning on an arbitrary comparison of values: a row passes the SELECT exactly when its columns satisfy the document's operators; two rows compare as the document's order wants; columns and limit are those asked for. |
| QueryEffects.ConditionsMean | lib/mapping/query-generator.js:528-540 | A row passes the conditions compiled from a value, nested to any depth, exactly when its column satisfies the value. |
| QueryEffects.OperatorsMean | lib/mapping/q.js:85-116 | gt, gte, lt, lte and notEq compile to conditions that hold exactly when the column is greater, and so on; in_ takes arrays only and means equality with an item; and means both. |
| QueryEffects.AssignmentsMean | lib/mapping/q.js:118-136 | incr and append add behind the column's value, prepend in front of it, decr and remove subtract. |
| QueryEffects.OrderMeans | lib/mapping/doc-info-adapter.js:41-56 | An order is accepted exactly when every direction is asc or desc in some letter case, and then compares any two rows as the document wants, the first differing property deciding. |
| QueryEffects.OrderingMeans | lib/mapping/doc-info-adapter.js:46-53 | asc and desc in any letter case and nothing else. |
| QueryEffects.UpdateChanges | lib/mapping/query-generator.js:178-327 | A well-formed UPDATE changes a row exactly when the key columns named by the document have its values and the guard's operators hold, and writes to the other columns what the document makes of them. |
| QueryEffects.DeleteRemoves | lib/mapping/query-generator.js:339-445 | A well-formed DELETE touches a row exactly when the key columns named by the document have its values and the guard's operators hold; its columns are exactly those outside the key that the document names. |
| QueryText.ConditionsSpelled | lib/mapping/query-generator.js:517-540 | The condition text is the flattened conditions joined by AND. |
| QueryText.GetterValues | lib/mapping/query-generator.js:454-491 | The getter's access paths take, from the document, exactly the values of the conditions, in order. |
| QueryText.AssignmentGetterValues | lib/mapping/query-generator.js:500-515 | The assignment getter takes exactly the values of the assignments, in order. |
| Statements.ConditionsRead | lib/mapping/query-generator.js:517-540 | A list of conditions and its values is read back, whatever follows. |
| Statements.AssignmentsRead | lib/mapping/query-generator.js:256-270 | A list of assignments (plain, appending, prepending) and its values is read back. |
| QueryBuilders.GetSelect | lib/mapping/query-generator.js:28-60 | The accumulated text is the SELECT whose meaning for rows is proved (QueryEffects.SelectReturns). |
| QueryBuilders.GetInsertQuery | lib/mapping/query-generator.js:125-148 | The accumulated text is the INSERT whose meaning is proved. |
| QueryBuilders.GetUpdateQuery | lib/mapping/query-generator.js:239-285 | The accumulated text is the UPDATE whose meaning is proved. |
| QueryBuilders.GetDeleteQuery | lib/mapping/query-generator.js:380-415 | The accumulated text is the DELETE whose meaning is proved. |
| QueryBuilders.GetUpdate | lib/mapping/query-generator.js:178-227 | The filtering loop keeps the table's properties; the statement counts as idempotent exactly when no list is changed by an assignment, no counter is touched and it is unconditional; the counter flag is exact. |
| CacheKey.ShapeUnique | lib/mapping/cache.js:169-182 | The operator tokens of a value, nested to any depth, are read in one way when no operator follows. |
| CacheKey.FlattenUnique | lib/mapping/cache.js:20-198 | A key over unreserved names is a flattened element list that can be read back in one way only. |
| CachedStatements.SelectKeyShape | lib/mapping/cache.js:20-65 | Equal SELECT keys have the same names, operators, fields, presence of a limit and order. |
| CachedStatements.SelectKeyDetermines | lib/mapping/cache.js:20-65 | For unreserved names and one table, equal SELECT keys give identical text and getter. |
| CachedStatements.CachedSelectMeaning | lib/mapping/mapping-handler.js:59-137 | A SELECT cached for one document and run on another with the same key means what the other document says. |
| CachedMutations.InsertKeyDetermines | lib/mapping/cache.js:73-92 | Equal INSERT keys of documents without operators give identical text and getter. |
| CachedMutations.UpdateKeyDetermines | lib/mapping/cache.js:100-125 | Equal UPDATE keys give identical text and getter if and only if the numbers of `when` keys are equal. |
| CachedMutations.RemoveKeyDetermines | lib/mapping/cache.js:134-159 | Equal DELETE keys give identical text and getter if and only if the numbers of `when` keys are equal. |
| CachedMutations.WhenKeysCollide | lib/mapping/cache.js:118-123 | The missing separator is real: for any two unreserved names, a property to set and the same property as a condition give one key and different statements. |
| CachedMutations.CachedUpdateMeaning | lib/mapping/mapping-handler.js:305-392 | An UPDATE cached for one document and run on another with the same key and as many `when` keys means what the other says, exactly when a fresh statement would. |
| CachedMutations.UpdateAndRemoveShareKeys | lib/mapping/model-batch-mapper.js:118-127 | The update and the remove key of one document coincide if and only if no property is an assignment, there is no TTL and not only columns are deleted. |
| CachedMutations.UpdateMeetsRemove | lib/mapping/model-batch-mapper.js:118-127 | An UPDATE of one document and a DELETE of another have one key if and only if the first has no assignment and no TTL, the second does not delete columns only, and a DELETE of the first would have that key; the statements differ always, so a tree for both serves each such pair wrongly. |
| CachedMutations.RemoveKeyExactly | lib/mapping/cache.js:134-159 | With as many `when` keys, two DELETE keys are equal if and only if names, operators, fields, flags and conditions are. |
| ObjectSelector.IncludedMeans | lib/mapping/object-selector.js:372-389 | When no key column is named twice the test says `all` exactly if every key is named; when one is, `all` never means that; `none` means that none is named, always. |
| ObjectSelector.UpdateTable | lib/mapping/object-selector.js:233-285 | An UPDATE on an accepted table binds all key columns, or the partition key of a table with static columns, once each, exactly when no key column is named twice; it sets nothing exactly when just the whole primary key of a table with static columns is named. |
| ObjectSelector.UpdateTableWithoutStatics | lib/mapping/object-selector.js:233-285 | On accepted tables without static columns SET is never empty, and every key column is bound once exactly when none is named twice. |
| ObjectSelector.AcceptedUpdateMeaning | lib/mapping/mapping-handler.js:338-392 | The UPDATE for an accepted table without static columns means what the document says exactly when no key value is an operator and not both guards are given. |
| ObjectSelector.DeleteTable | lib/mapping/object-selector.js:325-342 | A DELETE on an accepted table binds every key column, once each exactly when none is named twice. |
| ObjectSelector.InsertTable | lib/mapping/object-selector.js:170-197 | Without a key column named twice a table is accepted for INSERT exactly when all key columns are named, or the partition key alone with as many columns as there are static ones; with one, acceptance and that condition exclude each other. |
| ObjectSelector.SelectTable | lib/mapping/object-selector.js:52-125 | An accepted SELECT filters on key columns only and orders by a prefix of the clustering columns; it filters on every partition key column, and with all keys asked for on every key column, exactly when none of them is named twice. When a table is accepted is TableChoice.SelectExactly. |
| TableChoice.SelectExactly | lib/mapping/object-selector.js:52-125 | When no counted key column is named twice, a table is accepted for SELECT exactly if every partition key column is named, every clustering column when asked for, nothing but key columns is, the table has every field, and the order columns begin the clustering key; when one is named twice, acceptance and that condition exclude each other. |
| TableChoice.UpdateExactly | lib/mapping/object-selector.js:233-285 | The same for UPDATE: all key columns, or the partition key of a table with static columns; some other column of the table, or static columns and a named clustering key; every condition's column in the table. |
| TableChoice.DeleteExactly | lib/mapping/object-selector.js:325-342 | A table is accepted for DELETE exactly if every key column is named and it has every condition's column. |
| TableChoice.FirstSelectable | lib/mapping/object-selector.js:44-141 | The search finds the first table that is selectable in that sense; a table without metadata before it is an error. |
| ObjectSelector.GetForSelect | lib/mapping/object-selector.js:44-141 | The search returns the first accepting table, the one TableChoice.FirstSelectable describes; a table without metadata before it is an error. |
| ObjectSelector.FindServesGet | lib/mapping/mapping-handler.js:59-102 | The select key does not say whether all keys must be defined: a cached find and a get of one document choose the same table, or fail alike, exactly when find chooses none or one whose clustering keys are all included. |
| ObjectSelector.FindIsNotGet | lib/mapping/mapping-handler.js:59-102 | Such a document exists: find by the partition key is accepted and get is not. |
| ObjectSelector.StaticTableSetsNothing | lib/mapping/object-selector.js:267-278 | A table with static columns is accepted for an UPDATE that sets nothing. |
| ObjectSelector.MiscountExactly | lib/mapping/object-selector.js:372-389 | The counting test is wrong if and only if the count equals the number of keys although a key column is named twice, or exceeds it although every key is named. |
| ObjectSelector.TwoSpellingsFoolTheCount | lib/mapping/table-mappings.js:59-66 | With the snake-case naming convention the two spellings aB and a_b of one column make a missing key count as included. |
| TypeNames.SplitTypeArgs | lib/types/index.js:101-118 | The splitting loop computes the pieces between commas outside brackets, trimmed. |
| TypeNames.SplitUndoesJoin | lib/types/index.js:101-118 | Splitting inverts joining with ", " for every non-empty list of balanced, trimmed names. |
| TypeNamesRoundTrip.PrintedIsArgument | lib/types/index.js:338-374 | Every printed type name is balanced, free of outer commas and outer spaces. |
| TypeNamesRoundTrip.RoundTrip | lib/types/index.js:153-374 | Parsing the printed name of any nested list, set, map, tuple or vector type gives the type back if and only if no tuple inside it is empty; otherwise parsing fails. |
| TypeNamesRoundTrip.ParseEmptyTuple | lib/types/index.js:182-191 | The name of an empty tuple is rejected. |
| TypeNames.CaseIgnored | lib/types/index.js:153-154 | Names that differ only in the case of ASCII letters name the same type, or none. |
| Inet.ToString | lib/types/inet-address.ts:180-240 | The loops over the bytes compute the specified text. |
| Inet.FindLongest | lib/types/inet-address.ts:188-217 | The scan over the bytes, which closes an open run only at a new maximum, finds the specified span. |
| Inet.FromString | lib/types/inet-address.ts:77-141 | The loops that write the unsafely allocated buffer compute the bytes or failure that InetReading spells out for every form of text. |
| InetReading.CompressedRead | lib/types/inet-address.ts:98-140 | Any text of left groups, `::`, right groups and an optional dotted tail, groups in either letter case and with leading zeros, is read exactly when every group fits 16 bits and they leave room, a tail only in an IPv4-mapped address: as the left groups, zeros up to sixteen bytes, the right groups and the tail. |
| InetReading.MappedRead | lib/types/inet-address.ts:104-139 | For any four octets `::ffff:` and their dotted form is read as ten zeros, two 255 and the octets. |
| InetReading.FullRead | lib/types/inet-address.ts:98-140 | A text of groups without `::` is read exactly when each fits 16 bits and there are at most eight, a tail counting as two: as its groups, and what is left of the buffer as it was allocated. |
| InetReading.DeterminedExactly | lib/types/inet-address.ts:98-140 | What such a text is read as depends on the text alone if and only if it is rejected or has all eight groups. |
| InetReading.OthersRejected | lib/types/inet-address.ts:89-103 | Other characters, or fewer than two colons in what is not an IPv4 address, are rejected. |
| Inet.IsValidIPv4Mapped | lib/types/inet-address.ts:253-265 | True exactly for ten zero bytes followed by two 0xff. |
| InetText.IPv4Language | lib/types/inet-address.ts:82-82 | The IPv4 pattern, with its optional dot and word boundary, matches exactly four canonical octets joined by dots. |
| InetAddresses.ReadBack | lib/types/inet-address.ts:77-240 | For every 16-byte address, fromString of its text is the address with the compressed span zeroed, whatever the buffer held. |
| InetRuns.RoundTripByRuns | lib/types/inet-address.ts:77-240 | fromString(toString(a)) = a if and only if every run of zero groups is longer than those before it, or the first that is not lies so close to the end that it never looks longer than the longest before it, or the zero groups are those of 0:x:0:x:x:0:0:0. |
| InetRuns.SpanExactly | lib/types/inet-address.ts:188-217 | The span of the scan holds only zeros under exactly that condition on the runs. |
| InetAddresses.GrowingRunsRoundTrip | lib/types/inet-address.ts:188-217 | If every run of zero groups is longer than those before it, the address round-trips and the compressed span is a longest run. |
| InetAddresses.ShorterSecondRunFails | lib/types/inet-address.ts:190-200 | 0:0:1:0:1:1:1:1 does not round-trip. |
| InetAddresses.IPv4RoundTrip | lib/types/inet-address.ts:85-187 | Every four-byte address is read back from its dotted form. |
| InetAddresses.EmbeddedIsMapped | lib/types/inet-address.ts:104-139 | Of all texts that end in a dotted IPv4 address, only those of IPv4-mapped addresses are accepted; when and as what is InetReading.CompressedRead and FullRead. |
| ResultGroup.ResultSetGroup.SetError | lib/concurrent/index.js:377-387 | The error counts, is kept while there are fewer than maxErrors, and fills its slot. |
| ResultGroup.ResultSetGroup.SetResultItem | lib/concurrent/index.js:365-371 | The result counts and fills its slot. |
| ResultGroup.SlotsHold | lib/concurrent/index.js:365-387 | When every index is recorded once, each slot holds its own outcome and there are no others. |
| ResultGroup.ResultSetGroup.ErrorsKept | lib/concurrent/index.js:380-382 | The group keeps as many errors as executions failed, up to the limit. |
| StreamExecution.StreamExecutor.OnData | lib/concurrent/index.js:248-294 | Accepts exactly arrays before the end of reading; accepted = in flight + executed, in flight stays within the level, the stream pauses at the level. |
| StreamExecution.StreamExecutor.OnCompletion | lib/concurrent/index.js:266-289 | Records the outcome under its index, resumes, and settles the promise exactly when an error is raised or nothing is left after the end; a settled promise never changes. |
| StreamExecution.StreamExecutor.SetReadEnded | lib/concurrent/index.js:301-314 | The first end or read error settles the promise unless items are in flight. |
| StreamExecution.StreamExecutor.ResolvedMeans | lib/concurrent/index.js:281-288 | A resolved promise means reading ended, nothing is in flight, every accepted item has exactly one outcome, and none failed under raiseOnFirstError. |
| ArrayExecution.ArrayExecutor.Execute | lib/concurrent/index.js:135-144 | All workers start on their first item. |
| ArrayExecution.ArrayExecutor.OnCompletion | lib/concurrent/index.js:165-187 | The outcome is recorded once; the worker's next item is one that was never started; after a raised error nothing more is started by anybody; the promise is rejected with the first logged failure, or resolved when all workers are finished. |
| ArrayExecution.ArrayExecutor.Outstanding | lib/concurrent/index.js:146-151 | An item is outstanding exactly while its own worker runs it. |
| ArrayExecution.ArrayExecutor.AtMostLevelInFlight | lib/concurrent/index.js:135-151 | Never more than concurrencyLevel items are outstanding. |
| ArrayExecution.ArrayExecutor.AllDone | lib/concurrent/index.js:142-178 | When all workers are finished without a raised error, every index has its outcome exactly once and totalExecuted is n. |
| ArrayExecution.ArrayExecutor.ResolvedMeans | lib/concurrent/index.js:142-144 | When the promise of execute is resolved, every item has exactly one outcome, and none failed under raiseOnFirstError. |
| ArrayExecution.ArrayExecutor.Settle | lib/concurrent/index.js:142-144 | The promise of execute is rejected by the first raised error, else resolved when the last worker finishes, and never changes afterwards. |
| StreamExecution.Drive | lib/concurrent/index.js:236-323 | Over every run of events in any order the invariant holds, a settled promise never changes, and once resolved neither the result nor the accepted items do. |
| ArrayExecution.Drive | lib/concurrent/index.js:135-187 | Over every interleaving of completions the invariant holds, what was started and recorded stays so, and nothing is started after an error stopped the executor. |
| ArrayExecution.IndexParts | lib/concurrent/index.js:147-147 | An index belongs to one worker and one round. |
| ClientLifecycle.Client.Connect | lib/client.ts:274-337 | A call resolves, fails after shutdown, joins the running attempt, or starts the only one; with logging on it holds one registration; a failed logging set-up leaves none. |
| ClientLifecycle.Client.SessionCreation | lib/client.ts:337-351 | Everybody who started or joined the attempt gets its outcome; a failure releases the log registration; settled callers do not change. |
| ClientLifecycle.Client.Shutdown | lib/client.ts:945-974 | Takes effect only when connected, releases the registration, and excludes connected and connecting from then on; its wait for a running connect is never reached. |
| ClientLifecycle.Drive | lib/client.ts:262-984 | Over every run of calls and session outcomes the invariant holds (one creation outstanding at most, one registration exactly while connecting or connected with logging on), settled calls keep their outcome, and after a shutdown the client never connects again. |
| ClientLifecycle.Client.CloseLogging | lib/client.ts:976-984 | Leaves no registration of the client, and touches no other. |
| TokenRanges.ContainsIsMember | lib/token.js:246-267 | contains is membership by ring order from the start. |
| TokenRanges.UnwrapPartitions | lib/token.js:222-238 | unwrap gives ranges that do not wrap, with every member of the range in exactly one of them and no other token. |
| TokenRanges.SplitEvenly | lib/token.js:146-180 | The loop chains the split points; a count below one and an empty range fail. |
| TokenRanges.SplitPartitions | lib/token.js:146-180 | Split points in ring order partition the range if and only if there are none or no link goes from the minimum to the minimum. |
| TokenRanges.SplitAtTheMinimum | lib/token.js:167-178 | The whole ring split at the minimum token is not partitioned. |
| Shuffling.ShuffleArray | lib/utils.js:457-468 | The in-place loop gives the order that the draws determine, a permutation. |
| Shuffling.DrawsDiffer | lib/utils.js:457-468 | Different draws give different orders of different hosts. |
| Shuffling.EveryOrder | lib/utils.js:457-468 | Every order of the hosts is the result of some draws, so with DrawsDiffer the shuffle is unbiased. |
| HostOrder.SendUnhealthyToTheBack | lib/policies/load-balancing.js:611-633 | Given the number of unhealthy replicas, the in-place swaps leave a permutation with exactly those at the back. |
| HostOrder.CountBadPermuted | lib/policies/load-balancing.js:494-496 | The number of unhealthy replicas does not depend on their order. |
| LoadBalancing.FilterReplicas | lib/policies/load-balancing.js:472-498 | Keeps the accepted, up replicas in order; finds a newly-up one since which no other came up, or none when there is none; the unhealthy count is exact when none is found. |
| LoadBalancing.OrderReplicas | lib/policies/load-balancing.js:500-541 | A permutation of the replicas; with a healthy majority and no newly-up replica every unhealthy one is last, even after the choice between the first two; of three or more the first has no more in flight than the second, and a newly-up one that is sent back is neither of them. |
| LoadBalancing.SendBack | lib/policies/load-balancing.js:510-531 | A permutation that puts the unhealthy replicas last, or takes the newly-up one out of the first two. |
| LoadBalancing.ChooseFirst | lib/policies/load-balancing.js:533-538 | At most the first two change places, and the less busy of them comes first. |
| LoadBalancing.Policy.GetLocalHosts | lib/policies/load-balancing.js:446-464 | The up local hosts once around from where the counter stood, without the replicas; the counter moves on by one. |
| LoadBalancing.Policy.GetIndex | lib/policies/load-balancing.js:602-609 | Returns the counter and moves it on by one, from 2^31 - 2 to 0. |
| LoadBalancing.Policy.GetFilteredLocalHosts | lib/policies/load-balancing.js:591-600 | The cached local hosts are those of the current host list. |
| LoadBalancing.PreferredFirst | lib/policies/load-balancing.js:431-439 | The preferred host first, the others once each behind it. |
| LoadBalancing.Policy.NewQueryPlan | lib/policies/load-balancing.js:391-552 | The plan is the preferred host, then the usable replicas in some order (healthy ones first where that is decided), then the other up local hosts around from where the counter stood, without a host twice; it covers every up accepted local host; the counter moves on by one. |
| RoundRobin.Plans | lib/policies/load-balancing.js:391-464 | In a run of plans on hosts that stay up, each plan starts at the host the counter points to, and the counter advances with every plan. |
| RoundRobin.EachFirstOnceExactly | lib/policies/load-balancing.js:446-464 | Of as many plans in a row as there are local hosts each host comes first exactly once, if and only if the counter does not start again between them or its range is a multiple of their number. |
| Arithmetic.AroundFrom | lib/policies/load-balancing.js:458-459 | Counting on from any start around n places meets every place once. |
| Timestamps.MonotonicTimestampGenerator.Next | lib/policies/timestamp-generation.js:101-146 | The timestamp is the clock's in a later millisecond, else one microsecond after the last: greater than the last and at least the reading; a warning is given exactly when the date is ahead of the clock by the threshold and the last warning is an interval ago. |
| Timestamps.Warnings | lib/policies/timestamp-generation.js:125-143 | Over every run two warnings lie at least the minimum interval apart. |
| Timestamps.MicrosecondsExact | lib/policies/timestamp-generation.js:151-160 | Below 2^53 ms the value is exact in both representations and a Number stays below 2^53. |
| Timestamps.StrictlyIncreasing | lib/policies/timestamp-generation.js:101-146 | For every sequence of integer readings, backwards jumps and bursts included, timestamps strictly increase. |
| Timestamps.AtLeastTheReading | lib/policies/timestamp-generation.js:101-146 | Each timestamp is at least 1000 times its reading. |
| Timestamps.NotFarAhead | lib/policies/timestamp-generation.js:114-121 | A timestamp is ahead of the largest reading by at most one microsecond per call. |
| Timestamps.Run | lib/policies/timestamp-generation.js:90-160 | For all readings a Date can give, the generator's timestamps increase, Numbers come first and stay below 2^53, and order holds across the switch to Long. |

## Left out

- CodecRoundTrip.RoundTrip: values whose encodings reach 2 GiB, where 32-bit lengths no longer fit.
- CodecSize.CodecLaw: protocol versions 1 and 2 are in the encoder and decoder functions and in the round trip, but not in the claim that encoding succeeds, because their 16-bit lengths bound every collection.
- CodecRoundTrip.LeafRoundTrip: text is carried as its encoded bytes and float, double, date, time and uuid values as their fixed-width bytes, so UTF-8, IEEE 754, Date and uuid conversions are not modelled.
- DurationText.ParseStandardFormat: the case folding of the micro sign is not modelled.
- IntegerText.FromString: radixes other than ten are not modelled.
- IntegerText.Multiply: the shortcut for small numbers is modelled with exact Numbers, which doubles are below 2^53.
- QueryBuilders.GetSelect: statement text is a list of lexical tokens; spelling the tokens as characters, and column names that hold a double quote, are not modelled.
- QueryText.GetterValues: the generated JavaScript function is the list of its access paths, not script text.
- CachedStatements.SelectKeyDetermines: the table is fixed; which table a cached statement was made for is the matter of `ObjectSelector.FindServesGet`.
- TypeNamesRoundTrip.RoundTrip: user-defined types, whose parsed form has no printer; vector dimensions are exact integers; lower-casing is that of ASCII letters.
- QueryEffects.OrderingMeans: letters outside ASCII that upper-case to ASCII ones are not modelled.
- QueryEffects.SelectReturns: how values compare, and what + and - do to them, are parameters; null columns are values like others.
- StreamExecution.StreamExecutor.OnCompletion: a completion and the resume that follows it are one step; data arrives only while the stream is not paused.
- ArrayExecution.ArrayExecutor.OnCompletion: preparing and executing a statement are one step; the cache of prepared statements is not modelled; the concurrency level is not negative.
- ClientLifecycle.Client.SessionCreation: listeners of the "connected" event that call connect again before logging is closed.
- TokenRanges.SplitEvenly: computing the split points is a parameter.
- Timestamps.Run: readings beyond the largest Date and runs of more than 3.6e17 calls, where a Long could wrap; the order of the values themselves is proved for all readings.
- LoadBalancing.Policy.NewQueryPlan: the plan is read in one go, so hosts do not change state while it is consumed.
- RadixTree.Tree.GetOrCreate: the "add" event; a handler that returns null.
- Integer division, modulo, shifts, toString and toNumber of large values: floating-point estimates.
- Plain objects, Set and Map arguments of the codec, number and string coercions of leaf encoders: JavaScript coercion only.
- ISO 8601 durations: a parameter of `DurationText.FromString`.
- BigDecimal arithmetic: only its wire form is modelled.
- parseTypeName, parseFqTypeName, parseParams and routing keys: no matching printer or inverse in the repository.
- Result mapping, execution profiles, options, metadata, retries, metrics, authentication: plumbing.
- The native session, paging and logging layers: foreign code.
