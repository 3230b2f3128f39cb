# Codec verification

A Dafny model of the expression codecs, the JVM instruction coder and their
smaller companions in this repository, with proofs of what each promises.

* **Expressions** (`order`, `grouping`, `expr`, `canonical`). Kernel
  expressions are a head and children. The canonical form lists map entries and
  set members in key order at every level; two expressions are equal when their
  canonical forms are the same, which is how the kernel's `==`, `Hash` and
  canonical key are modelled.
* **Frames** (`bits`, `number`, `atoms`, `body`, `roundtrip`, `account`,
  `tables`, `origins`, `wire`, `frame`, `codec`, `identity`, `misplaced`). The
  bit codec and the byte codec share one frame grammar over different units: bits, and bytes.
  A `Carrier` says which. The body specification covers plain and dense frames;
  dense frames share repeated subtrees by back-reference, and the central
  invariant keeps the writer's table and the reader's slots in step through the
  whole recursion. Frame theorems compose header, body and origins.
  `sharing` counts what dense writing shares, `layout` and `literal` say what
  stands on the wire without naming the body specification, `delimit` that every
  frame fixes its own end, and `refusal` what the decoders refuse.
* **Strict gate** (`gate`, `spelling`). The byte codec's canonical decoder
  accepts exactly what its canonical writers write; `spelling` says which
  spellings of an origin the permissive reader takes beyond the writer's own.
* **Code that changes state** (`bitio`, `writer`, `reader`, `entry`). Bit
  cursor, frame writer and frame reader are classes whose methods are proved to
  append or consume exactly what the specification says. The two writers, and
  the two readers, of the source run the same walk over different primitives
  and are one class each here.
* **JVM code** (`opcode`, `instruction`, `code`, `bytecode`, `relocate`, `jvm`,
  `assembler`). Decoding tiles a code array; encoding re-lays out an edited
  stream and re-resolves every branch through stable identities. `bytecode` says
  what each opcode's bytes mean without naming the manifest, `relocate`
  holds the theorems, `jvm` and `assembler` the loops over a cursor and a
  mutable stream. The layouts follow the Java Virtual Machine Specification:
  section 6.5 (`tableswitch`, `lookupswitch`, `wide`), section 4.9.1 and section
  4.7.3.
* **Bijections and matching** (`mutf8`, `base64`, `profile`, `standard`). Strict modified
  UTF-8 (section 4.4.7 of the Java Virtual Machine Specification), canonical
  base64 (sections 3.5 and 4 of RFC 4648) and greedy profile matching.
* **Config text** (`toml`, `config`, `configline`, `configprint`,
  `configinsert`, `nesting`,
  `configtrip`, `configread`, `configdir`, `configtext`, `configrun`). The quote automaton the scanners
  share, the printer that flattens nested tables into sections, the line parser, and the inserter
  that rebuilds the nesting. `configtrip` and `configread` hold the exact round
  trip, `configdir` the decoder that chooses a mode, `configtext` that
  printing is one-to-one, `configline` what blanks and comments may be added,
  `configprint` the order and spacing of printed text, `configinsert` what each
  section does to the tables before it, `configrun` the loops.

Failures are modelled as an absent result; which error it is, and its message,
is not. Lengths and indices are unbounded naturals compared with the 64-bit
machine word where the source narrows to one; `u32`, `i32` and `u16` are subset
types.

Some results differ from what a reader might expect. The bit codec writes a
located tree's origins in the order of the given tree while its body is sorted,
so origins stay on their nodes exactly when rebuilding does not reorder them
(`Codecs.BitwiseTreeRoundTrip`, with a concrete misplaced origin in
`Misplaced.OriginMoves`). And a code array may be longer than the encoder
can describe: decoding checks that offsets fit 32 bits, encoding also checks the
end (`Relocation.ByteExact`, `Relocation.LongestCode`). Config text prints lists
of tables with tables inside them, but refuses to read them back
(`ConfigReading.RoundTripExactly`, `ConfigDirs.NestedListIsRefused`); it reads
lists that mix scalars and tables, but does not print them
(`ConfigReading.DecodedPrintsExactly`, `ConfigReading.MixedListReads`); and the
decoder that chooses its mode refuses a list of tables at the top of a directory
(`ConfigDirs.AutoRoundTrip`, `ConfigDirs.ListedLibraryIsRefused`). The byte
codec's permissive reader takes more spellings than are written
(`Bits.ReadVarUintExactly`, `Spelling.OriginExactly`), and greedy profile
matching is exact for some rule lists that repeat a kind and not for others
(`Profiles.GreedyExactly`).

`dafny verify dfyconfig.toml` checks the whole project.

## Model

| member | source | states |
|---|---|---|
| `Order.SortProperties` | crates/sim-codec-bitwise/src/writer.rs:145-165 | the stable sort the writers use yields key order and exactly the same items |
| `Order.SortOfSorted` | crates/sim-codec-bitwise/src/writer.rs:145-165 | sorting what is already sorted changes nothing, equal keys included |
| `Order.SortDependsOnMultiset` | crates/sim-codec-bitwise/src/writer.rs:145-165 | when keys identify items the sorted listing does not depend on the given order |
| `Order.StrictUnique` | crates/sim-codec-bitwise/src/tables.rs:14-26 | an ordered-set listing is determined by its elements |
| `Order.SetInsertProperties` | crates/sim-codec-bitwise/src/tables.rs:86-91 | an ordered-set insertion adds exactly its element and keeps the listing strict |
| `Grouping.ArrangeByMoves` | crates/sim-codec-bitwise/src/writer.rs:145-165 | collection order only moves whole map entries or whole set members |
| `Grouping.ArrangeByTwice` | crates/sim-codec-binary/src/writer.rs:313-335 | what has been arranged is a fixed point of arranging |
| `Grouping.ArrangeByMap` | crates/sim-codec-binary/src/writer.rs:313-335 | sorting trees by the key of their expression and sorting the expressions is the same permutation |
| `Exprs.RawKeyInjective` | crates/sim-codec-bitwise/src/writer.rs:148-159 | the concrete canonical key is prefix-free and one-to-one |
| `Canonical.CanonWellFormed` | crates/sim-codec-bitwise/src/writer.rs:145-165 | a canonical form is an expression with as many nodes |
| `Canonical.CanonIdempotent` | crates/sim-codec-bitwise/src/lib.rs:132-138 | canonicalization is idempotent |
| `Canonical.KeyDecidesEquality` | crates/sim-codec-bitwise/src/writer.rs:148-159 | keys are equal exactly for equal values |
| `Canonical.VisitedIsCanonical` | crates/sim-codec-bitwise/src/writer.rs:145-165 | sorting the given children by key and then recursing lists the canonical children |
| `Canonical.InsertionOrderIrrelevant` | crates/sim-codec-bitwise/src/lib.rs:132-138 | maps and sets with the same entries in any insertion order are the same value |
| `Canonical.EqualityExactly` | crates/sim-codec-bitwise/src/writer.rs:145-165 | values are equal exactly when their nodes are of one kind and have the same map entries, the same set members, or equal children in order |
| `Canonical.CanonCongruence` | crates/sim-codec-bitwise/src/lib.rs:132-138 | equal children make equal parents, so reordering at any depth is invisible |
| `Canonical.PairKeyOrder` | crates/sim-codec-bitwise/src/writer.rs:148 | comparing concatenated keys is comparing (key, value) key pairs |
| `Bits.ReadVBitsOf` | crates/sim-codec-bitwise/src/bitio.rs:192-209 | reading inverts writing on every 128-bit value, whatever follows |
| `Bits.ReadVBitsExact` | crates/sim-codec-bitwise/src/bitio.rs:199-209 | only bit strings the writer produces are accepted |
| `Bits.VBitsPrefixFree` | crates/sim-codec-bitwise/src/bitio.rs:192-196 | no code is a prefix of another |
| `Bits.VBitsLength` | crates/sim-codec-bitwise/src/bitio.rs:158-196 | an n-bit value costs n + 2 * bitlen(n + 1) - 1 bits |
| `Bits.ReadVarUintOf` | crates/sim-codec-binary/src/reader.rs:211-225 | reading inverts writing on every 64-bit value, whatever follows |
| `Bits.ReadVarUintNotExact` | crates/sim-codec-binary/src/reader.rs:211-225 | the byte reader accepts two spellings of zero |
| `Bits.ReadVarUintExactly` | crates/sim-codec-binary/src/reader.rs:211-225 | the bytes it takes are the writer's exactly when the last one is not an idle zero and a tenth one is below two, so that nothing was shifted out |
| `Numbers.IntegerRoundTrip` | crates/sim-codec-bitwise/src/number.rs:26-66 | converting a normalized integer to bits and back restores its text, and the magnitude has no leading zero |
| `Numbers.IntegerBitsLength` | crates/sim-codec-bitwise/src/reader.rs:254-260 | the magnitude needs at most eight bits per byte of text, the decoder's bound |
| `Numbers.SmallUintText` | crates/sim-codec-bitwise/src/number.rs:11-19 | an inline literal is the decimal text of its value |
| `Numbers.IntegerBitsOf` | crates/sim-codec-bitwise/src/number.rs:26-50 | every integer of any length converts to its sign and its binary digits, first digit one |
| `Numbers.IntegerBitsOnly` | crates/sim-codec-bitwise/src/number.rs:26-50 | only the decimal texts of integers convert: no empty text, leading zero, signed zero or other character |
| `Numbers.SmallUintExactly` | crates/sim-codec-bitwise/src/number.rs:11-19 | a text is an inline literal exactly when it is the decimal text of zero to fifteen |
| `Numbers.TextLiterals` | crates/sim-codec-bitwise/src/number.rs:54-66 | three texts and one magnitude, digit by digit |
| `Numbers.Divmod2` | crates/sim-codec-bitwise/src/number.rs:78-87 | one pass halves the digit array in place, exactly, with every digit still a digit |
| `Numbers.DecimalVec.Mul2Add` | crates/sim-codec-bitwise/src/number.rs:90-103 | doubles the digit vector, adds the bit, and leaves no leading zero |
| `Numbers.IntegerToBits` | crates/sim-codec-bitwise/src/number.rs:26-50 | the halving loop ends and computes the specified sign and bits, or refuses the text |
| `Numbers.BitsToInteger` | crates/sim-codec-bitwise/src/number.rs:54-66 | the doubling loop rebuilds the decimal text |
| `Atoms.DecFieldsOf` | crates/sim-codec-bitwise/src/reader.rs:147-232 | the fields of every node kind read back, in both carriers, whatever follows |
| `Atoms.DecNumberTextOf` | crates/sim-codec-bitwise/src/reader.rs:251-272 | a number's text reads back through the integer or the text form |
| `Atoms.DecEntryOf` | crates/sim-codec-bitwise/src/reader.rs:280-296 | a table index reads back as the entry it was written for |
| `Atoms.DecTagOf` | crates/sim-codec-bitwise/src/reader.rs:274-278 | a tag reads back as its kind |
| `Body.OpenInStep` | crates/sim-codec-bitwise/src/reader.rs:111-122 | registering a value and reserving a slot give the same number and keep writer and reader in step |
| `Body.CloseInStep` | crates/sim-codec-bitwise/src/reader.rs:123-129 | completing a node fills exactly its own slot and keeps writer and reader in step |
| `RoundTrips.RefRoundTrip` | crates/sim-codec-bitwise/src/reader.rs:132-145 | every back-reference reaches a completed slot that holds the same value |
| `RoundTrips.ExprRoundTrip` | crates/sim-codec-bitwise/src/writer.rs:101-113 | from any writer and reader in step, reading what was written gives the value, the rest, and states in step again; dense or plain, either carrier |
| `RoundTrips.KidsRoundTrip` | crates/sim-codec-bitwise/src/reader.rs:234-241 | the same for a list of children, named or not |
| `Sharing.WritesEachOnce` | crates/sim-codec-bitwise/src/writer.rs:101-113 | from any writer, a dense write adds exactly the value's distinct parts to the table and takes one number, so one full body, for each part not there before |
| `Sharing.KidsWriteEachOnce` | crates/sim-codec-bitwise/src/writer.rs:101-113 | the same over a list of children, named or not |
| `Sharing.FreshSharing` | crates/sim-codec-bitwise/src/writer.rs:101-113 | a fresh dense writer numbers exactly the distinct subexpressions |
| `Sharing.KnownIsReference` | crates/sim-codec-bitwise/src/writer.rs:101-107 | a value already written costs the reference tag and its number, and changes nothing |
| `Sharing.SharedSibling` | crates/sim-codec-bitwise/src/writer.rs:101-113 | a child that an earlier sibling is or holds is written as a reference to it |
| `Sharing.ReferenceExactly` | crates/sim-codec-bitwise/src/reader.rs:105-145 | a reference reads as the completed value in its slot and charges all its nodes; out-of-range, forward, over-limit and plain-frame references are refused |
| `Accounting.DecFacts` | crates/sim-codec-bitwise/src/reader.rs:105-145 | on any input a read charges exactly the node count of its result, references included, within the limit, and a plain result is within the depth limit |
| `Accounting.DecFieldsFacts` | crates/sim-codec-bitwise/src/reader.rs:147-232 | on any input the fields read are within the limits and announce a possible arity |
| `SideTables.TablesComplete` | crates/sim-codec-bitwise/src/tables.rs:14-91 | the collected tables hold every symbol, domain and namespace the writer looks up |
| `SideTables.CanonMentions` | crates/sim-codec-bitwise/src/tables.rs:28-84 | a canonical form mentions the same symbols and domains |
| `SideTables.TablesOfCanon` | crates/sim-codec-bitwise/src/lib.rs:132-138 | equal values have equal tables |
| `SideTables.Collect` | crates/sim-codec-bitwise/src/tables.rs:14-26 | one walk computes exactly those tables, in table order |
| `SideTables.Collector.CollectExpr` | crates/sim-codec-bitwise/src/tables.rs:28-84 | the walk adds what the expression mentions to the three ordered sets and nothing else |
| `SideTables.Collector.CollectSymbol` | crates/sim-codec-bitwise/src/tables.rs:86-91 | a symbol and its namespace are inserted, each once |
| `Origins.CanonTreeExpr` | crates/sim-codec-binary/src/writer.rs:295-377 | the rebuilt tree's expression is the canonical form, whatever order the tree was in |
| `Origins.CanonTreeValid` | crates/sim-codec-binary/src/codec.rs:152-154 | the rebuilt tree passes the tree check again, so the second check cannot fail |
| `Origins.CanonTreeIdempotent` | crates/sim-codec-binary/src/writer.rs:295-377 | rebuilding a rebuilt tree changes nothing |
| `Origins.OriginsTravel` | crates/sim-codec-binary/src/writer.rs:295-377 | rebuilding only moves map entries and set members, each node with its origin and subtree |
| `Origins.DealPreorder` | crates/sim-codec-binary/src/reader/tree.rs:13-157 | a tree is its expression with its origins dealt out in pre-order |
| `Origins.PreorderDeal` | crates/sim-codec-binary/src/reader/tree.rs:13-157 | dealing origins out loses none of them and keeps their order |
| `Wire.DecHeaderOf` | crates/sim-codec-bitwise/src/reader.rs:62-99 | a header reads back its flags and tables, whatever follows |
| `Wire.DecRecordOf` | crates/sim-codec-bitwise/src/reader.rs:298-311 | a symbol record reads back with its namespace |
| `Wire.DecOriginOf` | crates/sim-codec-bitwise/src/reader/origin.rs:8-35 | an origin reads back, whatever follows |
| `Wire.EncTreeIsPreorder` | crates/sim-codec-bitwise/src/writer.rs:322-334 | a tree's origins are written parents first in the order of its children |
| `Wire.DecTreeDeals` | crates/sim-codec-bitwise/src/reader/origin.rs:37-197 | reading origins deals them out to the nodes of the expression in pre-order |
| `Layout.VBitsShape` | crates/sim-codec-bitwise/src/bitio.rs:158-196 | a bit-frame number is zeros, the number of its bits plus one, and its bits, each first bit one |
| `Layout.VarUintShape` | crates/sim-codec-binary/src/writer.rs:210-222 | a byte-frame number is seven bits to a byte, least significant first, every byte but the last marked, and no idle zero |
| `Layout.TagOf` | crates/sim-codec-bitwise/src/types.rs:110-150 | every kind of node has its tag, bit by bit and as a byte |
| `Layout.ReferenceTag` | crates/sim-codec-bitwise/src/types.rs:147-149 | the reference tag, bit by bit |
| `Layout.ConstantNode` | crates/sim-codec-bitwise/src/writer.rs:115-119 | nil and the truth values are their tags |
| `Layout.SymbolNode` | crates/sim-codec-bitwise/src/writer.rs:121-132 | a symbol or a local is its tag and its place in the table |
| `Layout.BytesNode` | crates/sim-codec-bitwise/src/writer.rs:133-142 | strings and bytes are a tag, a length and the bytes |
| `Layout.EightBits` | crates/sim-codec-bitwise/src/bitio.rs:44-55 | a byte is eight bits, most significant first |
| `Layout.CountedNode` | crates/sim-codec-bitwise/src/writer.rs:143-166 | lists, vectors, sets and blocks are a tag, a count and the children |
| `Layout.MapNode` | crates/sim-codec-bitwise/src/writer.rs:145-155 | a map is a tag, the number of pairs, and key and value of each |
| `Layout.OperatorNode` | crates/sim-codec-bitwise/src/writer.rs:175-197 | operators and extensions are a tag, the place of their symbol, and the children |
| `Layout.QuoteNode` | crates/sim-codec-bitwise/src/writer.rs:199-203 | a quote is a tag, the code of its mode and the quoted node |
| `Layout.CallNode` | crates/sim-codec-bitwise/src/writer.rs:166-174 | a call is a tag, the operator, the number of arguments and the arguments |
| `Layout.AnnotatedNode` | crates/sim-codec-bitwise/src/writer.rs:204-214 | an annotated node is a tag, the inner node, the number of annotations, and each name's place before its value |
| `Layout.NextKid` | crates/sim-codec-bitwise/src/writer.rs:252-259 | children follow one another |
| `Layout.NextNamedKid` | crates/sim-codec-bitwise/src/writer.rs:208-213 | each annotation is its name's place and then its value |
| `Layout.EntryAt` | crates/sim-codec-bitwise/src/writer.rs:290-302 | the place of a table entry is its index |
| `Layout.NumberNode` | crates/sim-codec-bitwise/src/writer.rs:224-250 | a number is a tag, the place of its domain, and in a byte frame its text |
| `Layout.NumberBitsAre` | crates/sim-codec-bitwise/src/writer.rs:224-250 | in a bit frame the rest of a number is nothing, sign and magnitude, or text, as its text is a small integer, an integer, or neither |
| `Layout.TablesExactly` | crates/sim-codec-bitwise/src/tables.rs:28-86 | the tables list exactly the symbols nodes carry, the domains of numbers, and the namespaces of both |
| `Layout.TablesOrdered` | crates/sim-codec-bitwise/src/tables.rs:14-26 | each table is strictly increasing, symbols without a namespace first, then by namespace and name |
| `Layout.ByteHeader` | crates/sim-codec-binary/src/types.rs:15-19 | a byte frame starts with S, L, B, 8, one, and its flags |
| `Layout.BitHeader` | crates/sim-codec-bitwise/src/writer.rs:76-92 | a bit frame starts with the four bits of version one, and its flags |
| `Layout.FlagBits` | crates/sim-codec-bitwise/src/types.rs:11-24 | the four flags, bit by bit |
| `Layout.RecordLayout` | crates/sim-codec-bitwise/src/writer.rs:271-288 | a symbol record is zero or one more than its namespace's place, then its name |
| `Layout.TablesLayout` | crates/sim-codec-bitwise/src/writer.rs:76-92 | namespaces, symbols and domains in that order, each list after its length |
| `Layout.TriviaLayout` | crates/sim-codec-bitwise/src/writer.rs:304-320 | a trivia item is the code of its kind and its text |
| `Layout.OriginLayout` | crates/sim-codec-bitwise/src/writer.rs:304-320 | an origin is its codec number, source, start, end and counted trivia |
| `Layout.MaybeLayout` | crates/sim-codec-bitwise/src/writer.rs:304-335 | an origin in a tree is a one and the origin, or a zero |
| `Frames.UnpackPack` | crates/sim-codec-bitwise/src/bitio.rs:12-66 | unpacking packed bits gives them back with fewer than eight zeros after them |
| `Codecs.FrameRoundTrip` | crates/sim-codec-bitwise/src/codec.rs:218-236 | any frame decodes to its own tables and canonical value; only padding is left after the last unit |
| `Codecs.PlainRoundTrip` | crates/sim-codec-bitwise/src/codec.rs:103-111 | plain frames of both codecs round-trip to the canonical form |
| `Codecs.DenseRoundTrip` | crates/sim-codec-bitwise/src/codec.rs:121-129 | dense frames round-trip to the canonical form |
| `Codecs.LocatedRoundTrip` | crates/sim-codec-bitwise/src/codec.rs:135-154 | a single origin comes back on the root, in both codecs |
| `Codecs.OriginsByFlags` | crates/sim-codec-bitwise/src/codec.rs:218-236 | each of the eight flag combinations reads a tree of origins, then one for the root, and shares in the body, as its bits say |
| `Codecs.BinaryTreeRoundTrip` | crates/sim-codec-binary/src/codec.rs:148-168 | every origin of a valid tree comes back on its own node, and encoding a valid tree cannot fail |
| `Codecs.BitwiseTreeDeals` | crates/sim-codec-bitwise/src/codec.rs:161-183 | the bit codec's tree frame gives the given origins to the sorted nodes in pre-order |
| `Codecs.BitwiseTreeRoundTrip` | crates/sim-codec-bitwise/src/codec.rs:161-183 | such a frame keeps origins on their nodes exactly when rebuilding leaves the order of origins alone |
| `Codecs.CanonHeight` | crates/sim-codec-bitwise/src/reader.rs:382-390 | canonicalization keeps the depth the limit is checked against |
| `Delimiting.ExprStops` | crates/sim-codec-bitwise/src/reader.rs:105-232 | a body stops at a place fixed by its own units, whatever follows |
| `Delimiting.SelfDelimiting` | crates/sim-codec-bitwise/src/bitio.rs:138-148 | of all byte strings that start with the units read from an accepted frame, that frame is the only one accepted |
| `Delimiting.EncodedExactly` | crates/sim-codec-bitwise/src/codec.rs:218-236 | of all byte strings that start with the units a writer wrote, its frame is the only one accepted: nothing may follow and no padding bit may be set |
| `Delimiting.NoProperExtension` | crates/sim-codec-bitwise/src/codec.rs:218-236 | no accepted frame has an accepted proper extension, in either codec |
| `Delimiting.PlainFrameEnds` | crates/sim-codec-binary/src/codec.rs:268-299 | a plain frame with anything after it is refused |
| `Delimiting.DenseFrameEnds` | crates/sim-codec-bitwise/src/codec.rs:218-236 | so is a dense frame |
| `Delimiting.LocatedFrameEnds` | crates/sim-codec-binary/src/codec.rs:268-299 | so is a frame with an origin |
| `Delimiting.TreeFrameEnds` | crates/sim-codec-binary/src/codec.rs:268-299 | so is a frame with a tree of origins |
| `Literals.NilFrames` | crates/sim-codec-bitwise/src/codec.rs:103-117 | nil, byte for byte in both codecs |
| `Literals.NilPadding` | crates/sim-codec-bitwise/src/bitio.rs:138-148 | the same two bytes with a padding bit set are refused |
| `Literals.SharedFrame` | crates/sim-codec-bitwise/src/writer.rs:101-113 | the dense frame of two nils, byte for byte: the second is a reference to the first |
| `Literals.SampleFrame` | crates/sim-codec-binary/src/codec.rs:122-145 | a call with a namespace, a symbol, a number, a string and an origin, byte for byte |
| `Refusals.TagRefused` | crates/sim-codec-bitwise/src/types.rs:160-203 | tags beyond the last are refused |
| `Refusals.NoRoomRefused` | crates/sim-codec-bitwise/src/reader.rs:364-391 | so is any node once levels or nodes are used up |
| `Refusals.SymbolRefused` | crates/sim-codec-bitwise/src/reader.rs:280-287 | a symbol's place beyond its table |
| `Refusals.DomainRefused` | crates/sim-codec-bitwise/src/reader.rs:289-296 | a domain's place beyond its table |
| `Refusals.CountRefused` | crates/sim-codec-bitwise/src/reader.rs:337-349 | more children than the limit |
| `Refusals.BytesRefused` | crates/sim-codec-bitwise/src/reader.rs:318-330 | strings and bytes over their limits, and strings that are not UTF-8 |
| `Refusals.ModeRefused` | crates/sim-codec-bitwise/src/reader.rs:313-316 | quote modes beyond the last |
| `Refusals.MagnitudeExactly` | crates/sim-codec-bitwise/src/reader.rs:251-272 | a magnitude is read exactly when it is within its limit, complete, and without a leading zero |
| `Refusals.NumberTextExactly` | crates/sim-codec-bitwise/src/reader.rs:251-272 | what is written for a number's text reads back exactly when the text is within the limit of its kind |
| `Refusals.FieldsExactly` | crates/sim-codec-bitwise/src/reader.rs:147-232 | the written fields of a node read back exactly when they are within the limits |
| `Refusals.LettersRefused` | crates/sim-codec-binary/src/reader.rs:63-70 | a byte frame without its four letters |
| `Refusals.VersionRefused` | crates/sim-codec-bitwise/src/reader.rs:62-70 | every version but one |
| `Refusals.FlagsRefused` | crates/sim-codec-bitwise/src/reader.rs:71-76 | unknown flags |
| `Refusals.LengthRefused` | crates/sim-codec-bitwise/src/reader.rs:40-56 | frames over the byte limit |
| `Refusals.TableRefused` | crates/sim-codec-bitwise/src/reader.rs:77-98 | tables over the limit |
| `Refusals.NamespaceRefused` | crates/sim-codec-bitwise/src/reader.rs:298-311 | a namespace's place beyond its table |
| `Refusals.TriviaRefused` | crates/sim-codec-bitwise/src/reader/origin.rs:8-35 | trivia kinds beyond the last |
| `Refusals.TriviasRefused` | crates/sim-codec-bitwise/src/reader/origin.rs:8-35 | trivia over the limit |
| `Refusals.CodecNumber` | crates/sim-codec-bitwise/src/reader/origin.rs:8-35 | a codec number over 32 bits is refused in a bit frame, and loses its high bits in a byte frame |
| `Refusals.PresenceRefused` | crates/sim-codec-binary/src/reader/tree.rs:16-22 | a byte before an origin other than zero and one |
| `Refusals.DeepOriginRefused` | crates/sim-codec-bitwise/src/reader/origin.rs:41-50 | origins deeper than the limit |
| `Refusals.Utf8Exactly` | crates/sim-codec-bitwise/src/reader.rs:318-321 | text is accepted exactly when it encodes Unicode scalar values, as section 3 of RFC 3629 lays them out |
| `Identity.FramesDecideEquality` | crates/sim-codec-bitwise/src/lib.rs:132-141 | two values have the same canonical bytes exactly when they are equal |
| `Identity.DenseFramesDecideEquality` | crates/sim-codec-bitwise/src/codec.rs:113-129 | the same for dense frames |
| `Identity.ReencodingIsIdentity` | crates/sim-codec-bitwise/src/lib.rs:132-138 | re-encoding a decoded frame gives the frame, plain and dense |
| `Identity.ReorderedEqual` | crates/sim-codec-bitwise/src/lib.rs:132-138 | reordering map entries and set members at any depth gives an equal value |
| `Identity.ReorderingKeepsBytes` | crates/sim-codec-bitwise/src/lib.rs:132-138 | and so the same bytes |
| `Identity.CanonIsReordering` | crates/sim-codec-bitwise/src/writer.rs:145-165 | the canonical form is itself such a reordering |
| `Identity.DecodeIsBounded` | crates/sim-codec-bitwise/src/reader.rs:364-426 | whatever bytes are accepted, the value has at most the allowed nodes after expansion, is within the depth limit unless dense, and every origin sits on one of its nodes |
| `Identity.SortedTreeRoundTrip` | crates/sim-codec-bitwise/src/codec.rs:161-183 | a bit-codec tree already in canonical order comes back as it was |
| `Misplaced.OriginMisplaced` | crates/sim-codec-bitwise/src/codec.rs:174-177 | the origin given to `true` comes back on nil: the decoded tree, written out |
| `Misplaced.OriginMoves` | crates/sim-codec-bitwise/src/codec.rs:174-177 | the same with concrete limits that leave room for the frame |
| `Gate.GateIsExact` | crates/sim-codec-binary/src/codec.rs:233-266 | the strict decoder accepts a byte string in a lane exactly when some value the limits admit is written to it in that lane |
| `Gate.AcceptedIsAdmitted` | crates/sim-codec-binary/src/codec.rs:229-266 | an accepted frame is the frame of its decoded value, which is within the limits, and its tables are that value's own |
| `Gate.WrittenIsAccepted` | crates/sim-codec-binary/src/codec.rs:233-266 | what a lane's writer writes is accepted and comes back in canonical order |
| `Gate.LossyFrames` | crates/sim-codec-binary/src/codec.rs:148-171 | without origins a valid tree is written as the plain frame of its expression; an invalid tree is never written |
| `Gate.OriginNotWritten` | crates/sim-codec-binary/src/codec.rs:122-145 | a value whose origin is missing or not wanted is written as its plain frame |
| `Gate.GateIsInjective` | crates/sim-codec-binary/src/codec.rs:216-227 | accepted frames with the same decoded value are the same bytes |
| `Gate.PermissiveIsNotInjective` | crates/sim-codec-binary/src/codec.rs:210-216 | respelling the version of any accepted frame decodes alike, and the strict decoder refuses it |
| `Gate.NarrowingIsNotInjective` | crates/sim-codec-binary/src/reader.rs:142-167 | an origin codec number and the same plus 2^32 decode alike |
| `Spelling.OriginExactly` | crates/sim-codec-binary/src/reader.rs:142-167 | the bytes of an accepted origin are the writer's exactly when every varuint is in its shortest spelling and the codec number is below 2^32 |
| `BitIo.BitWriter.WriteBit` | crates/sim-codec-bitwise/src/bitio.rs:32-41 | appends one bit; the bytes are the packed bits so far |
| `BitIo.BitWriter.WriteVBits` | crates/sim-codec-bitwise/src/bitio.rs:165-196 | the zero, width and value loops append exactly the prefix code |
| `BitIo.BitReader.ReadBit` | crates/sim-codec-bitwise/src/bitio.rs:104-112 | takes the next bit of the frame or fails at its end |
| `BitIo.BitReader.ReadVBits` | crates/sim-codec-bitwise/src/bitio.rs:176-209 | the loops compute the specified value or refuse the same inputs |
| `BitIo.BitReader.RequireZeroPadding` | crates/sim-codec-bitwise/src/bitio.rs:138-148 | succeeds exactly when fewer than eight bits remain and all are zero |
| `BitIo.PackNext` | crates/sim-codec-bitwise/src/bitio.rs:32-41 | pushing a zero byte at a boundary and setting one bit is packing one more bit |
| `FrameWriters.FrameWriter.VarUintBytes` | crates/sim-codec-binary/src/writer.rs:210-222 | the byte loop appends exactly the variable-length integer |
| `FrameWriters.FrameWriter.WriteExpr` | crates/sim-codec-bitwise/src/writer.rs:101-113 | the walk over the given order appends the canonical body, shared or not, and cannot fail on closed tables |
| `FrameWriters.FrameWriter.WriteBody` | crates/sim-codec-bitwise/src/writer.rs:115-222 | tag, fields and sorted children are appended as specified |
| `FrameWriters.FrameWriter.NumberText` | crates/sim-codec-bitwise/src/writer.rs:224-250 | the integer or text form of a number is appended |
| `FrameWriters.FrameWriter.WriteHeader` | crates/sim-codec-bitwise/src/writer.rs:76-93 | the header is appended, and cannot fail when every namespace is listed |
| `FrameWriters.FrameWriter.WriteOriginTree` | crates/sim-codec-bitwise/src/writer.rs:322-334 | the origins are appended in pre-order of the given children |
| `FrameReaders.FrameReader.ReadVarUintLoop` | crates/sim-codec-binary/src/reader.rs:211-225 | the shift loop computes the specified 64-bit value or fails alike |
| `FrameReaders.FrameReader.ReadExprWithDepth` | crates/sim-codec-bitwise/src/reader.rs:105-130 | the recursive reader returns what the body specification returns and leaves its state |
| `FrameReaders.FrameReader.ResolveRef` | crates/sim-codec-bitwise/src/reader.rs:132-145 | a reference returns the completed subtree and charges its whole size, or fails |
| `FrameReaders.FrameReader.Fields` | crates/sim-codec-bitwise/src/reader.rs:147-232 | every tag reads its fields or fails alike |
| `FrameReaders.FrameReader.ReadHeader` | crates/sim-codec-bitwise/src/reader.rs:62-99 | magic, version, flags and tables are read or refused as specified |
| `FrameReaders.FrameReader.ReadOriginTree` | crates/sim-codec-bitwise/src/reader/origin.rs:41-178 | the origin tree is rebuilt over the expression as specified |
| `Entry.EncodeLocatedFrame` | crates/sim-codec-bitwise/src/codec.rs:135-154 | encoding never fails and gives exactly the specified frame, in both codecs |
| `Entry.EncodeDenseFrame` | crates/sim-codec-bitwise/src/codec.rs:121-129 | dense encoding never fails and gives exactly the specified frame |
| `Entry.EncodeTreeFrame` | crates/sim-codec-binary/src/codec.rs:148-168 | tree encoding refuses exactly the trees that fail the check |
| `Entry.Validate` | crates/sim-codec/src/implementation/tree.rs:14-178 | the tree check holds exactly when every child stands for its subexpression |
| `Entry.DecodeFrame` | crates/sim-codec-bitwise/src/codec.rs:218-236 | decoding returns exactly the specified parts or fails |
| `Entry.DecodeCanonicalFrame` | crates/sim-codec-binary/src/codec.rs:233-266 | the strict decoder as it runs is the specified gate |
| `Instructions.TakeFieldsOf` | crates/sim-codec-classfile/src/encode.rs:309-375 | the operands of any fixed layout decode from their own bytes |
| `Instructions.TakeFieldsExact` | crates/sim-codec-classfile/src/instruction.rs:158-237 | operands decode only from the bytes they are encoded to |
| `Instructions.TakeTableOf` | crates/sim-codec-classfile/src/encode.rs:379-407 | a table switch decodes from its own words |
| `Instructions.TakeTableExact` | crates/sim-codec-classfile/src/instruction.rs:300-333 | and only from those, with a branch for every key of the range |
| `Instructions.TakeLookupOf` | crates/sim-codec-classfile/src/encode.rs:408-431 | a lookup switch decodes from its own words |
| `Instructions.TakeLookupExact` | crates/sim-codec-classfile/src/instruction.rs:335-378 | and only from those, with strictly increasing keys |
| `Instructions.TakePaddingExact` | crates/sim-codec-classfile/src/instruction.rs:380-393 | accepted padding is zero bytes up to the next multiple of four |
| `CodeArrays.EmitSize` | crates/sim-codec-classfile/src/encode.rs:158-206 | emission writes exactly the bytes the layout pass reserved, padding included |
| `CodeArrays.TakeInstructionOf` | crates/sim-codec-classfile/src/instruction.rs:133-243 | an emitted instruction decodes to itself, `wide` forms and switches included |
| `CodeArrays.TakeInstructionExact` | crates/sim-codec-classfile/src/instruction.rs:133-243 | an instruction decodes only from the bytes it is emitted as |
| `Bytecode.NoOperand` | crates/sim-codec-classfile/src/opcode_generated.rs:290-305 | an opcode without operands is its byte |
| `Bytecode.Pushes` | crates/sim-codec-classfile/src/opcode_generated.rs:306-307 | bipush takes a signed byte and sipush a signed two-byte number |
| `Bytecode.Ldc` | crates/sim-codec-classfile/src/opcode_generated.rs:308 | ldc takes a one-byte index of a one-slot constant |
| `Bytecode.PoolIndex` | crates/sim-codec-classfile/src/opcode_generated.rs:309-310 | the other loads, field, method and class instructions take a two-byte index of a constant of their own kind, and are refused otherwise |
| `Bytecode.LocalIndex` | crates/sim-codec-classfile/src/instruction.rs:158-237 | loads, stores and ret take a one-byte local index |
| `Bytecode.Iinc` | crates/sim-codec-classfile/src/instruction.rs:158-237 | iinc takes a local index and a signed byte |
| `Bytecode.ShortBranch` | crates/sim-codec-classfile/src/instruction.rs:158-237 | conditional branches, goto and jsr take a signed two-byte displacement |
| `Bytecode.LongBranch` | crates/sim-codec-classfile/src/instruction.rs:158-237 | goto_w and jsr_w take a signed four-byte displacement |
| `Bytecode.InvokeInterface` | crates/sim-codec-classfile/src/instruction.rs:158-237 | invokeinterface takes an interface method, a count and a zero byte |
| `Bytecode.InvokeDynamicCall` | crates/sim-codec-classfile/src/instruction.rs:488-547 | invokedynamic takes a call site and two zero bytes, from version 51 on |
| `Bytecode.NewArray` | crates/sim-codec-classfile/src/instruction.rs:158-237 | newarray takes an array type |
| `Bytecode.MultiNewArray` | crates/sim-codec-classfile/src/instruction.rs:158-237 | multianewarray takes a class and a number of dimensions |
| `Bytecode.WideLocal` | crates/sim-codec-classfile/src/instruction.rs:158-237 | wide doubles the local index |
| `Bytecode.WideIinc` | crates/sim-codec-classfile/src/instruction.rs:158-237 | and both operands of iinc |
| `Bytecode.WideRefused` | crates/sim-codec-classfile/src/instruction.rs:158-237 | nothing else may be widened |
| `Bytecode.ReservedRefused` | crates/sim-codec-classfile/src/instruction.rs:488-547 | reserved and unassigned bytes are no instruction |
| `Bytecode.TooOld` | crates/sim-codec-classfile/src/instruction.rs:488-547 | no opcode is older than version 45 |
| `Bytecode.TableSwitchBytes` | crates/sim-codec-classfile/src/instruction.rs:300-333 | tableswitch: zeros up to a multiple of four, default, range, and a branch for each key |
| `Bytecode.LookupSwitchBytes` | crates/sim-codec-classfile/src/instruction.rs:335-378 | lookupswitch: zeros up to a multiple of four, default, count, and each key with its branch |
| `Bytecode.WordBytes` | crates/sim-codec-classfile/src/instruction.rs:605-615 | a word is four bytes, most significant first, in two's complement |
| `CodeArrays.StartsIncrease` | crates/sim-codec-classfile/src/encode.rs:133-156 | offsets strictly increase |
| `CodeArrays.EmittedBefore` | crates/sim-codec-classfile/src/encode.rs:46-60 | each offset is the number of bytes emitted before it |
| `CodeArrays.EmitAllAt` | crates/sim-codec-classfile/src/encode.rs:46-60 | each instruction's own bytes stand between its start and the next |
| `Relocation.DecodedTiles` | crates/sim-codec-classfile/src/instruction.rs:128-274 | a decoded stream starts at zero, tiles the array, numbers in order, and its offset map is the exact inverse |
| `Relocation.DecodedTarget` | crates/sim-codec-classfile/src/instruction.rs:427-447 | every decoded branch lands on an instruction |
| `Relocation.DecodedSlice` | crates/sim-codec-classfile/src/instruction.rs:128-274 | each decoded instruction is written in exactly the bytes from its offset to the next one or the end |
| `Relocation.ByteExact` | crates/sim-codec-classfile/src/encode.rs:17-87 | encoding what was decoded gives exactly the array back and leaves the stream alone, when the length fits 32 bits, and fails otherwise |
| `Relocation.LongestCode` | crates/sim-codec-classfile/src/encode.rs:148-155 | there is an array that decodes and does not encode |
| `Relocation.RelocationPreservesFlow` | crates/sim-codec-classfile/src/encode.rs:17-87 | after any edits every branch reaches the instruction it reached; ids, opcodes, `wide` and other operands are unchanged |
| `Relocation.BranchKeepsTarget` | crates/sim-codec-classfile/src/encode.rs:62-75 | a relocated displacement is the distance to the same instruction's new offset |
| `Relocation.EncodingTwice` | crates/sim-codec-classfile/src/encode.rs:17-87 | a second encoding returns the same bytes and changes nothing |
| `Relocation.LayoutMatchesEmission` | crates/sim-codec-classfile/src/encode.rs:46-87 | offsets count the bytes before them, strictly increase, and end at the code length |
| `Relocation.DecodeEncoded` | crates/sim-codec-classfile/src/instruction.rs:128-274 | decoding encoded bytes gives the relocated instructions renumbered, given usable constants |
| `InstructionCoders.DecodeInstructions` | crates/sim-codec-classfile/src/instruction.rs:128-274 | the decoding loop builds the specified stream or fails alike |
| `InstructionCoders.CodeCursor.ReadTableSwitch` | crates/sim-codec-classfile/src/instruction.rs:300-333 | the table loop reads the specified operands |
| `InstructionCoders.CodeCursor.ReadLookupSwitch` | crates/sim-codec-classfile/src/instruction.rs:335-378 | the pair loop reads the specified operands |
| `InstructionCoders.ValidateHandlers` | crates/sim-codec-classfile/src/instruction.rs:277-298 | succeeds exactly when every range is non-empty and lies on instruction boundaries, its end possibly at the code's end |
| `InstructionCoders.HandlersAreRuns` | crates/sim-codec-classfile/src/instruction.rs:277-298 | in decoded code a range is accepted exactly when it is a run of at least one whole instruction and its handler is one |
| `Assembler.ResolveBranchTargets` | crates/sim-codec-classfile/src/encode.rs:89-131 | succeeds exactly when identities are distinct and every branch has a target, and records each |
| `Assembler.Layout` | crates/sim-codec-classfile/src/encode.rs:133-156 | succeeds exactly when every instruction is usable and shaped and the code fits 32 bits |
| `Assembler.Rewrite` | crates/sim-codec-classfile/src/encode.rs:62-86 | rewriting branches, offsets and the offset map in place cannot fail |
| `Assembler.EncodeInstructions` | crates/sim-codec-classfile/src/encode.rs:17-87 | returns the specified bytes and leaves the specified stream; on failure the stream is untouched |
| `ModifiedUtf8.Bijection` | crates/sim-codec-classfile/src/modified_utf8.rs:11-117 | bytes decode to a text exactly when the text is well paired, within budget, and they are its encoding |
| `ModifiedUtf8.EncodingFits` | crates/sim-codec-classfile/src/modified_utf8.rs:133-181 | encoding succeeds exactly when the text is well paired and its length fits the budget, and decodes back |
| `ModifiedUtf8.UnitLayout` | crates/sim-codec-classfile/src/modified_utf8.rs:133-181 | the bits of a code unit in one, two or three bytes, zero in two |
| `ModifiedUtf8.DecodeModifiedUtf8` | crates/sim-codec-classfile/src/modified_utf8.rs:11-117 | the loop with a pending surrogate is the specified decoding |
| `ModifiedUtf8.EncodeModifiedUtf8` | crates/sim-codec-classfile/src/modified_utf8.rs:133-181 | the width sum and writing loops are the specified encoding |
| `ModifiedUtf8.ValidateSurrogates` | crates/sim-codec-classfile/src/modified_utf8.rs:183-205 | the index loop accepts exactly the well-paired texts |
| `ModifiedUtf8.ByteReader.SubReader` | crates/sim-codec-classfile/src/bytes.rs:151-155 | a child sees exactly its bytes at their absolute offset and the parent skips them |
| `ModifiedUtf8.ByteWriter.WriteBytes` | crates/sim-codec-classfile/src/bytes.rs:174-215 | appends exactly when the budget allows and otherwise changes nothing |
| `Base64.Bijection` | crates/sim-codec-binary-base64/src/base64.rs:59-118 | a text decodes to some bytes exactly when, blanks aside, it is their encoding |
| `Base64.RoundTrip` | crates/sim-codec-binary-base64/src/base64.rs:15-35 | decoding inverts encoding within the limit |
| `Base64.Alphabet` | crates/sim-codec-binary-base64/src/base64.rs:9 | letters, letters, digits, plus and slash, in that order |
| `Base64.GroupOfThree` | crates/sim-codec-binary-base64/src/base64.rs:15-35 | three bytes are four letters of six bits each |
| `Base64.Examples` | crates/sim-codec-binary-base64/src/base64.rs:15-35 | one, two and three bytes, letter for letter |
| `Base64.StripOne` | crates/sim-codec-binary-base64/src/base64.rs:120-135 | four blanks are dropped, letters and padding kept, and any other byte refused |
| `Base64.EncodeBase64` | crates/sim-codec-binary-base64/src/base64.rs:15-35 | the chunk loop is the specified encoding |
| `Base64.DecodeBase64` | crates/sim-codec-binary-base64/src/base64.rs:59-118 | the stripping and quartet loops are the specified decoding |
| `Profiles.GreedyIsExact` | crates/sim-codec-bridge/src/profile.rs:68-98 | for distinct kinds the cursor loop accepts exactly the concatenation language of the rules |
| `Profiles.GreedyExactly` | crates/sim-codec-bridge/src/profile.rs:68-98 | the cursor loop accepts the language of the rules on every body exactly when no rule can be starved by an earlier one of its kind |
| `Profiles.RepeatedKinds` | crates/sim-codec-bridge/src/profile.rs:68-98 | kinds may repeat in rule lists that are matched exactly, and repeat in lists that are not |
| `Profiles.MatchesPacket` | crates/sim-codec-bridge/src/profile.rs:68-98 | the cursor and count loops compute the greedy match |
| `Profiles.MatchingProfiles` | crates/sim-codec-bridge/src/profile.rs:166-172 | the matching ids in book order |
| `Profiles.StandardProfilesExclusive` | crates/sim-codec-bridge/src/profile.rs:223-283 | no body matches two of the four standard profiles |
| `StandardProfiles.BriefLanguage` | crates/sim-codec-bridge/src/profile.rs:222-232 | BRIEF is any Given, one or more Frame, at most one Return |
| `StandardProfiles.AskLanguage` | crates/sim-codec-bridge/src/profile.rs:234-245 | ASK is any Given, any Frame, one or more Call, one Return |
| `StandardProfiles.LoomLanguage` | crates/sim-codec-bridge/src/profile.rs:247-258 | LOOM is any Given, any Frame, one or more Weave, one Return |
| `StandardProfiles.CollabLanguage` | crates/sim-codec-bridge/src/profile.rs:260-273 | COLLAB is a non-empty mixture of six kinds |
| `StandardProfiles.PartNames` | crates/sim-codec-bridge/src/profile.rs:222-273 | the part names, letter by letter |
| `StandardProfiles.OtherNames` | crates/sim-codec-bridge/src/profile.rs:186-205 | the other names and the profile ids, letter by letter |
| `StandardProfiles.StandardIds` | crates/sim-codec-bridge/src/profile.rs:222-273 | each spec has its own profile's id, in the bridge namespace |
| `StandardProfiles.BookOrdered` | crates/sim-codec-bridge/src/profile.rs:275-283 | the standard book lists its profiles in the order of their ids |
| `TomlText.UnescapeOf` | crates/sim-codec-config/src/toml_lite.rs:204-217 | reading an escaped string up to its closing quote gives the string back |
| `TomlText.QuotedIsQuiet` | crates/sim-codec-config/src/toml_lite.rs:407-432 | a quoted literal hides every mark the scanners look for, whatever the string contains |
| `TomlText.AtomRoundTrip` | crates/sim-codec-config/src/toml_lite.rs:296-313 | a good leaf prints on one line and parses back |
| `TomlText.SplitJoined` | crates/sim-codec-config/src/toml_lite.rs:315-370 | splitting and parsing a printed array gives back its items |
| `TomlText.SplitOfJoin` | crates/sim-codec-config/src/toml_lite.rs:255-258 | splitting a joined path gives the path back, so distinct paths have distinct names |
| `TomlText.HeaderRoundTrip` | crates/sim-codec-config/src/toml_lite.rs:238-260 | a printed section header parses back to its path and kind |
| `TomlText.AssignmentRoundTrip` | crates/sim-codec-config/src/toml_lite.rs:262-294 | a printed assignment parses back to its entry, even when its string holds assignment or comment marks |
| `Config.LinesAppend` | crates/sim-codec-config/src/toml_lite.rs:49 | the lines of ended text and more text are the lines of each |
| `Config.EntriesRead` | crates/sim-codec-config/src/toml_lite.rs:97-158 | printing good entries never fails, and the text parses as opening their sections and pushing their entries one by one |
| `ConfigLines.StripExactly` | crates/sim-codec-config/src/toml_lite.rs:407-432 | a line is cut at its first comment mark outside strings, kept when it has none, and refused exactly when it has none and a string stays open |
| `ConfigLines.QuietCommentIgnored` | crates/sim-codec-config/src/toml_lite.rs:407-432 | a comment after what has closed strings and no mark is cut off, and nothing else is |
| `ConfigLines.CommentedLine` | crates/sim-codec-config/src/toml_lite.rs:44-54 | a comment does not change what a line does to a document |
| `ConfigLines.CommentsIgnored` | crates/sim-codec-config/src/toml_lite.rs:44-54 | a comment after any line whose strings are closed leaves what the text decodes to unchanged |
| `ConfigLines.BlanksIgnored` | crates/sim-codec-config/src/toml_lite.rs:44-54 | so do blanks around a line and a carriage return at its end |
| `ConfigLines.BlankLinesIgnored` | crates/sim-codec-config/src/toml_lite.rs:44-54 | so does a blank line anywhere |
| `ConfigLines.TrimOf` | crates/sim-codec-config/src/toml_lite.rs:51 | trimming takes exactly the six ASCII blanks around what is solid |
| `ConfigLines.KeyCharacters` | crates/sim-codec-config/src/toml_lite.rs:434-459 | keys are letters, digits, underscore, minus and slash |
| `ConfigLines.HeaderExactly` | crates/sim-codec-config/src/toml_lite.rs:238-260 | a line is a section header exactly when it is valid names joined by dots in single or double brackets |
| `ConfigLines.DottedNames` | crates/sim-codec-config/src/toml_lite.rs:254-258 | names in a header are separated by dots |
| `ConfigLines.AssignmentSpaced` | crates/sim-codec-config/src/toml_lite.rs:262-271 | any blanks may stand around the equals sign |
| `ConfigLines.LastItemSpaced` | crates/sim-codec-config/src/toml_lite.rs:334-370 | and around an array's last item, which may not be blank |
| `ConfigLines.ItemSpaced` | crates/sim-codec-config/src/toml_lite.rs:334-370 | and around the items before it |
| `ConfigLines.ArraysRead` | crates/sim-codec-config/src/toml_lite.rs:315-332 | an array is nothing or its split items, each a leaf |
| `ConfigLines.NestedArraysRefused` | crates/sim-codec-config/src/toml_lite.rs:315-332 | an array inside an array is refused |
| `ConfigLines.IntegersRead` | crates/sim-codec-config/src/toml_lite.rs:296-313 | any decimal integer of 64 bits reads as its value, leading zeros and a signed zero included, and any other is refused |
| `ConfigLines.OtherValuesRefused` | crates/sim-codec-config/src/toml_lite.rs:296-313 | what is neither quoted, bracketed, a truth value nor an integer is refused |
| `ConfigLines.EscapesRead` | crates/sim-codec-config/src/toml_lite.rs:372-405 | the five escapes read as their characters, and no other escape reads |
| `ConfigLines.StringsRead` | crates/sim-codec-config/src/toml_lite.rs:372-405 | after the closing quote only blanks may follow |
| `ConfigLines.OpenStringRefused` | crates/sim-codec-config/src/toml_lite.rs:372-405 | a string left open is refused |
| `ConfigLines.TwiceRefused` | crates/sim-codec-config/src/toml_lite.rs:62-69 | a text with the same section header twice, wherever, is refused |
| `ConfigLines.KeyTwiceRefused` | crates/sim-codec-config/src/toml_lite.rs:16-23 | a text with the same key twice and no section between is refused |
| `ConfigPrinted.GroupedByRank` | crates/sim-codec-config/src/toml_lite.rs:97-158 | entries print as scalars, lists of tables and tables, by key within each |
| `ConfigPrinted.EscapesWritten` | crates/sim-codec-config/src/toml_lite.rs:204-217 | five characters are written escaped, every other as it is |
| `ConfigPrinted.HeaderLine` | crates/sim-codec-config/src/toml_lite.rs:167-179 | a section header follows exactly one blank line, or starts the text |
| `ConfigPrinted.SamplePrinted` | crates/sim-codec-config/src/toml_lite.rs:97-158 | a scalar, an array, a list of tables and a table, character for character |
| `ConfigTrees.InsertExactly` | crates/sim-codec-config/src/decode.rs:148-240 | a section is taken exactly when only tables stand on its way and what is under its path admits it, and then that value is the section added to it |
| `ConfigTrees.InsertElsewhere` | crates/sim-codec-config/src/decode.rs:148-240 | and every path apart from its own keeps its value |
| `ConfigTrees.InsertAppends` | crates/sim-codec-config/src/decode.rs:148-240 | entries keep their places and a new key comes last |
| `ConfigTrees.MergeExactly` | crates/sim-codec-config/src/decode.rs:242-253 | merging appends in order exactly when no key is there twice |
| `ConfigTrees.ChildExactly` | crates/sim-codec-config/src/decode.rs:148-240 | a key stands for its first entry |
| `Nesting.AddedEntries` | crates/sim-codec-config/src/toml_lite.rs:57-82 | if printed entries parse at all, they parse as their scalars and the sections of what is nested, in order |
| `Nesting.FlatEntriesRead` | crates/sim-codec-config/src/toml_lite.rs:57-82 | flat entries always parse: no key and no section comes twice |
| `Nesting.InsertUnder` | crates/sim-codec-config/src/decode.rs:148-167 | sections below a key act inside the table there and nowhere else |
| `Nesting.RebuiltItems` | crates/sim-codec-config/src/decode.rs:197-218 | repeated sections rebuild their list exactly when every item is a table of scalars |
| `Nesting.Rebuilt` | crates/sim-codec-config/src/decode.rs:84-95 | inserting the sections of ordered entries rebuilds them exactly when they are flat, and fails otherwise |
| `ConfigRoundTrip.GroupedMoves` | crates/sim-codec-config/src/toml_lite.rs:106-128 | grouping and sorting a table's entries is a permutation |
| `ConfigRoundTrip.ArrangedIsSame` | crates/sim-codec-config/src/toml_lite.rs:126-128 | printing order differs from the given tree only in the order of entries, at every level |
| `ConfigRoundTrip.PrintedDecodes` | crates/sim-codec-config/src/decode.rs:84-95 | the printed text of a good tree decodes to the same tree in printing order when lists of tables hold only scalars, and is refused otherwise |
| `ConfigText.EntriesSay` | crates/sim-codec-config/src/toml_lite.rs:97-158 | the lines of printed entries say their sections and assignments in order, whether or not a document takes them |
| `ConfigText.SameListing` | crates/sim-codec-config/src/toml_lite.rs:97-158 | what the lines say determines the table, however deep lists of tables are nested |
| `ConfigText.TextDecidesSame` | crates/sim-codec-config/src/toml_lite.rs:88-158 | good trees print the same text exactly when they are the same up to entry order |
| `ConfigRoundTrip.ArrangedTwice` | crates/sim-codec-config/src/toml_lite.rs:126-128 | printing order is a fixed point |
| `ConfigReading.DecodedIsReadable` | crates/sim-codec-config/src/decode.rs:40-47 | any text that decodes gives tables with distinct valid keys, ASCII strings, canonical integers and lists of leaves and leaf tables |
| `ConfigReading.RoundTripExactly` | crates/sim-codec-config/src/decode.rs:84-95 | a table survives printing and decoding exactly when its keys are valid and distinct, its leaves canonical, its arrays flat and its lists of tables scalar-only |
| `ConfigReading.ReadPrintRead` | crates/sim-codec-config/src/toml_lite.rs:88-95 | what was decoded and prints again decodes to the same tree, and printing that gives the same text |
| `ConfigReading.DecodedPrintsExactly` | crates/sim-codec-config/src/toml_lite.rs:190-199 | what was decoded prints exactly when no list in it holds both a table and something else |
| `ConfigReading.ReprintsExactly` | crates/sim-codec-config/src/toml_lite.rs:88-95 | printing and decoding what was decoded restores it, with the text a fixed point, exactly without mixed lists |
| `ConfigReading.MixedListReads` | crates/sim-codec-config/src/decode.rs:205-208 | a repeated section appends a table to a list of scalars; the mixed list decodes but does not print |
| `ConfigDirs.DirExactly` | crates/sim-codec-config/src/decode.rs:97-118 | a directory is the table of its text, when nothing stands before its sections and no library section repeats, and is refused otherwise |
| `ConfigDirs.AutoExactly` | crates/sim-codec-config/src/decode.rs:59-82 | choosing the mode from the document changes nothing, except that a directory with a repeated library section is refused |
| `ConfigDirs.AutoRoundTrip` | crates/sim-codec-config/src/decode.rs:97-118 | with the mode chosen, a table survives exactly when it is good, flat, and not all library keys with a list of tables among them |
| `ConfigDirs.NestedListIsRefused` | crates/sim-codec-config/src/decode.rs:220-240 | a table inside a list of tables prints, but its text is not read back |
| `ConfigDirs.ListedLibraryIsRefused` | crates/sim-codec-config/src/decode.rs:106-108 | a list of tables under a library key reads back as a table and is refused when the mode is chosen |
| `ConfigRun.StripCommentLoop` | crates/sim-codec-config/src/toml_lite.rs:407-432 | the scan finds the first comment mark outside strings and refuses open strings |
| `ConfigRun.FindAssignment` | crates/sim-codec-config/src/toml_lite.rs:273-294 | the scan finds the first assignment mark outside strings |
| `ConfigRun.SplitArrayItems` | crates/sim-codec-config/src/toml_lite.rs:334-370 | the scan splits at commas outside strings and refuses blank items |
| `ConfigRun.EscapeString` | crates/sim-codec-config/src/toml_lite.rs:204-217 | the loop computes the specified escaping |
| `ConfigRun.ParseStringLoop` | crates/sim-codec-config/src/toml_lite.rs:372-405 | the loop inverts escapes up to the closing quote, as specified |
| `ConfigRun.ParseArrayText` | crates/sim-codec-config/src/toml_lite.rs:315-332 | items are parsed in order and a nested array is refused |
| `ConfigRun.Document.ReadText` | crates/sim-codec-config/src/toml_lite.rs:41-86 | the line loop leaves the specified document, or fails when it does |
| `ConfigRun.TextOut.EncodeTable` | crates/sim-codec-config/src/toml_lite.rs:97-158 | grouping, sorting and recursing level by level prints the arranged tree |
| `ConfigRun.DocumentToTable` | crates/sim-codec-config/src/decode.rs:84-95 | inserting section after section gives the specified tree |
| `ConfigRun.DocumentToDir` | crates/sim-codec-config/src/decode.rs:97-118 | the directory loop gives the specified tree |
| `ConfigRun.MergeEntries` | crates/sim-codec-config/src/decode.rs:242-253 | merging appends in order and refuses a key already there |
| `ConfigRun.DecodeText` | crates/sim-codec-config/src/decode.rs:40-47 | reading lines and rebuilding compute the specified decoder |
| `ConfigRun.EncodeText` | crates/sim-codec-config/src/encode.rs:17-22 | the printer's loops compute the specified text |

## Left out

- The kernel (`sim_kernel`): `Expr`, `Symbol`, `canonical_key`, `==` and `Hash` are not part of this repository; the model gives them a concrete form in which equality is equality of canonical forms. Symbols are ordered by namespace, then name, as derived orderings do.
- The sort of the standard library: modelled by a stable insertion sort, not by its algorithm.
- Error kinds, messages and offsets: a failure is an absent result. Where a source function can fail in several ways the model only says that it fails.
- The depth of dense results: a back-reference is not rechecked against the depth limit, so the depth bound of `Identity.DecodeIsBounded` is stated for frames without sharing only.
- Length arithmetic of bit frames: `bytes.len() * 8` is taken as exact, which holds for frames below 2^61 bytes.
- Index maps of the writers: a table look-up is a search for the entry's first place; the maps built from the tables are not modelled.
- Writer and reader classes: the separate writers and readers of the two codecs are one class each, with the carrier as a constant; after a failed read nothing is said about the cursor.
- JVM constant pools: a partial map from usable indices to the categories the instruction decoder distinguishes. Pool decoding and the rest of the class file are not part of this model.
- The opcode manifest: every row's layout, category and first version; mnemonics and control kinds are left out, and no usable row has an end version.
- Base64 limits: only the input byte limit takes part.
- Profile descriptors, packet fields other than part kinds, and the rest of BRIDGE: not modelled. The profile book is the listing its ordered map has.
- Runtime registration, shapes, cookbook reports, build scripts, the compare harness, the chat text form and the Algol and document codecs: not modelled, they would add plumbing or easier repetitions of the same round trips.
- Allocation (`with_capacity`, `try_reserve`): not modelled.
- Config insertion in place: sections are inserted into a value that is rebuilt along the path, where the source updates nested vectors through mutable references; nothing about aliasing is said.
- Config expressions: keys are their names, so a symbol key and a string key of the same name are one; number domains are not modelled, and every decoded number has the 64-bit domain. Other expression kinds are one refused value.
- Config section names: the parser's set of seen sections holds paths, where the source holds joined names; `TomlText.SplitOfJoin` says these are the same.
- Config byte limits: not modelled.
