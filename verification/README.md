# Verified model of the GPU-tools replay crates

This project models, in Dafny, the pure and stateful logic that the replay crates wrap around
a private framework, and proves what that logic keeps. The framework itself is not modelled:
it appears as nondeterministic steps (report an error, enter a completion block, let time
pass) or as parameters.

There is one module a file. They group as follows.

- **Keyed archives.** `Plist` is an already parsed value tree. `Archive` is the recursive
  resolver under its budget of 64 indirections, as functions and as the methods that fill
  their collections in place. `ArchiveSemantics` gives it two independent meanings: an
  unfolding relation without errors or evaluation order, and walks through the object graph.
  `ArchiveRoundTrip` says what an archive of a tree is, whichever slots it uses, and proves the
  round trip with its tight bound. `ArchiveErrors` says what each error means, and `ArchiveLeaves`
  when a resolved tree still holds UIDs.
  `Stages` reads a resolved pipeline. `ReplyEnvelope` is the
  one-step walker for fetch replies and its agreement with the general resolver.
- **Reply tables and payloads.** `LittleEndian`, `Records` (six layouts of an 80-byte chunk),
  `RecordTables` (whole tables, encoders, the probe's lossless decoder) and `Payloads` (the
  one validation and every slice that relies on it, in both crates).
- **Images.** `Formats`, `Strides` (rows a stride apart, and the arithmetic they need) and
  `Images` (four access paths over the same bytes).
- **Capture blocks.** `Harvester`: the parser against the producer of the findings document.
- **Descriptor join.** `Join` (the two-cursor walk), `Describe` (sort, dedupe, walk, scatter)
  and `DescribeLaws` (conservation, order independence).
- **Fetch protocol.** `Observer` (the append-only error list), `Fetch` (a step relation over any
  number of fetches and completion-block entries), `FetchLaws` (its invariant and what an
  answer therefore says), `FetchEquivalence` (two runs compared), `Blocking` (the outcome slot,
  the completion block, the polling loop and the blocking composition as the code runs them)
  and `BlockingRuns` (each such execution is a run of the step relation).
- **Session.** `SessionOpen`: concurrent calls of `open` around the one-shot flag.

A run of `Fetch` or `SessionOpen` is any sequence of events; an event that is not enabled does
nothing, so a statement about every sequence is one about every interleaving. Some state there
is history that the program does not store: a returned fetch remembers what it collected and
how many errors it saw, a spent handler remembers its taker, a fetch remembers its polls, and
an `open` remembers what the world answered it, its load result and the number of reports at its
check.

`usize` is 64 bits wide; checked, saturating and rounding-up operations are written out in
`Machine`. Values that are read off the wire carry their width as a subset type.

Run `dafny verify dfyconfig.toml` to check the whole project.

## Where code and documentation disagree

The model follows the code.

- `pixels` is documented to require a byte-aligned format
  (`crates/gputools-replay-hl/src/image.rs:326-331`). The code never tests it:
  `Images.ByteAlignmentExactly` says for which formats the promise holds all the same, namely
  all but packed colour, and `Images.PackedPixelAccepted` gives a packed image that is accepted.
  When a given call succeeds is stated by `Images.PixelsAreRows` with `Images.RowsExact`.
- The record decoders are introduced as dropping nothing
  (`crates/gputools-replay/src/reply.rs:142-145`). The texture layout drops bytes 0x48..0x4a
  and 0x4e..0x50 and the wireframe layout 0x36..0x38: `Records.ChunkKernel` is the exact kernel,
  `Records.DropsNothingExactly` says which layouts keep the promise, `Records.TwoChunksOneRecord`
  gives inputs of the other two, and `RecordTables.ChunkRoundTrip` says for which chunks nothing
  is lost.
- The capture-block parser neither requires the metadata size to cover the descriptors nor
  applies the version 1 adjustment of `docs/findings/02-harvester.md:32-33`.
  `Harvester.PayloadAfterDescriptors` and `Harvester.PayloadAgreesWithFramework` give the exact
  conditions, `Harvester.OverlapAccepted` and `Harvester.VersionOneAccepted` an input each.
- The blocking fetch is documented to check the observer unconditionally
  (`crates/gputools-replay/src/fetch.rs:456-461`). When `-fetch:` gives no token the call returns
  before that check: `FetchLaws.NoTokenSkipsCheck` is a run in which a recorded error goes
  unanswered, and `FetchLaws.AnswerExactly` says that a token is exactly what the check needs.
- The resolver is documented to leave no UID unresolved
  (`crates/gputools-replay-hl/src/pipeline.rs:180-186`). A dictionary without an `NS.objects`
  array, and a plain array, pass through verbatim (lines 228-232 and 265 there), and so does
  what they hold: `ArchiveLeaves.RootReferenceLeft` is an archive whose root comes back with a
  reference in it, `ArchiveLeaves.RootNoUidExactly` the exact condition. The unfolding relation
  treats such values as leaves.
- A texture is documented to go without a descriptor only if the manifest has none for it
  (`crates/gputools-replay-hl/src/describe.rs:33-35`). A descriptor whose texture was not fetched
  blocks all behind it: `DescribeLaws.DescribedLeftOut` is an input,
  `DescribeLaws.NoneLeftOutExactly` the exact condition and `Join.CompleteGivesAll` what becomes
  of it when everything was fetched.
- The descriptor join's shift limitation is documented as an effect of an undescribed texture
  that sorts earlier. `Join.ShiftLimitation` makes it exact.

## Model

| member | source | states |
|---|---|---|
| Archive.UnarchiveValue | crates/gputools-replay-hl/src/pipeline.rs:212-267 | the recursive decoder, with collections filled in place and early returns, computes the pure resolver on every table, value and depth |
| Archive.FillEntries | crates/gputools-replay-hl/src/pipeline.rs:235-253 | the insert loop over parallel keys and values: key first, then its value, first error returned, later repeats overwrite |
| Archive.FillItems | crates/gputools-replay-hl/src/pipeline.rs:255-262 | the push loop over array items, first error returned |
| ArchiveSemantics.UnarchiveExact | crates/gputools-replay-hl/src/pipeline.rs:212-267 | Ok(t) at depth d if and only if v unfolds through the table to t (UIDs in range, equal key and value counts, string keys, last repeat wins) along at most 64 - d indirections; the unfolding relation knows no errors and no evaluation order |
| ArchiveSemantics.SucceedsExactlyWhenWalksFit | crates/gputools-replay-hl/src/pipeline.rs:212-267 | the decoder succeeds if and only if every walk from the value through references and children is within the remaining budget and meets only well-formed nodes |
| ArchiveSemantics.CycleNeverResolves | crates/gputools-replay-hl/src/pipeline.rs:178-182 | a value from which a cycle is reachable never yields Ok, at any depth |
| ArchiveSemantics.ShallowerAgrees | crates/gputools-replay-hl/src/pipeline.rs:212-221 | Ok at depth d gives the same tree at every smaller depth |
| ArchiveSemantics.InsertedIsLastWins | crates/gputools-replay-hl/src/pipeline.rs:237-251 | inserting the entries in order builds the map in which each name holds the value beside its last occurrence |
| ArchiveSemantics.LastWinsUnique | crates/gputools-replay-hl/src/pipeline.rs:237-251 | there is only one such map |
| ArchiveRoundTrip.ReferenceResolves | crates/gputools-replay-hl/src/pipeline.rs:212-267 | a reference met at depth d to a slot archiving t resolves to t if d < 64 and t has at most (64 - d - 1) / 2 levels, and otherwise fails with the depth error and no other |
| ArchiveRoundTrip.ArchivedRootResolves | crates/gputools-replay-hl/src/pipeline.rs:178-205 | for any archive giving nodes slots, shared or not, the root unarchives to exactly the archived dictionary when that is at most 31 levels deep and errors otherwise: the bound is tight |
| ArchiveRoundTrip.Emit | crates/gputools-replay-hl/src/pipeline.rs:212-267 | every plain tree has an archive that can be appended to any object table |
| ArchiveRoundTrip.RoundTrip | crates/gputools-replay-hl/src/pipeline.rs:187-205 | every plain dictionary has an archive whose unarchiving is that dictionary, up to 31 levels |
| ArchiveLeaves.NoUidExactly | crates/gputools-replay-hl/src/pipeline.rs:212-267 | a resolved value holds no UID if and only if no value that passes through verbatim below it, and is not overwritten by a later key that leads to the same string, holds one |
| ArchiveLeaves.RootNoUidExactly | crates/gputools-replay-hl/src/pipeline.rs:180-206 | the documented promise that every UID of an archive is resolved holds of its root dictionary under exactly that condition on what lies below the root reference |
| ArchiveLeaves.RootReferenceLeft | crates/gputools-replay-hl/src/pipeline.rs:180-206 | an archive whose root dictionary is returned with a reference in it that could be followed |
| ArchiveErrors.EnvelopeExactly | crates/gputools-replay-hl/src/pipeline.rs:187-201 | an envelope is accepted if and only if it is a dictionary with an array $objects and a dictionary $top that has root, and otherwise the first of these that is missing is the error |
| ArchiveErrors.RootExactly | crates/gputools-replay-hl/src/pipeline.rs:202-205 | a root reference that unfolds within 64 indirections gives its dictionary, and is refused if it unfolds to anything else |
| ArchiveErrors.ErrorIsReal | crates/gputools-replay-hl/src/pipeline.rs:212-267 | every error names a real defect: the depth error a walk beyond the budget, any other a node at the end of a walk within it that is wrong in that way |
| Stages.ReadStages | crates/gputools-replay-hl/src/pipeline.rs:103-135 | the nested loops over three kinds and their entries compute the stages in kind order, with the first error met |
| Stages.StagesOfKindExactly | crates/gputools-replay-hl/src/pipeline.rs:110-132 | the stages of a kind are read if and only if every entry is a dictionary with the code as data, and are those, with the id if it is a fitting number and 0 if not, whatever else an entry holds |
| Stages.FirstUnfit | crates/gputools-replay-hl/src/pipeline.rs:111-120 | the first entry of a kind that holds no stage is its error: no dictionary, or no code |
| Stages.FirstKindUnfit | crates/gputools-replay-hl/src/pipeline.rs:105-132 | of the kinds, the first with an error gives it: vertex, then fragment, then compute |
| Stages.RefusedArchive | crates/gputools-replay-hl/src/pipeline.rs:103-104 | an archive the resolver refuses is refused by both readers with the resolver's own error |
| Stages.StagesRoundTrip | crates/gputools-replay-hl/src/pipeline.rs:103-135 | from any dictionary whose entries hold stages under the three kinds, an absent kind standing for none and whatever else is there, exactly those are read: vertex, then fragment, then compute |
| Stages.ArchivedStagesRead | crates/gputools-replay-hl/src/pipeline.rs:93-135 | the same from any keyed archive of such a dictionary within the depth bound |
| Stages.StatisticsExactly | crates/gputools-replay-hl/src/pipeline.rs:137-172 | statistics of exactly one stage come back whole from an archive within the depth bound; any other count is an error |
| ReplyEnvelope.Parse | crates/gputools-replay/src/reply.rs:54-129 | the method from the parsed property list on computes the pure parse |
| ReplyEnvelope.WalkPairs | crates/gputools-replay/src/reply.rs:86-122 | the loop over the pairs, with its three optional locals, computes the pure walk or returns the first error |
| ReplyEnvelope.OneStepAgrees | crates/gputools-replay/src/reply.rs:39-49 | what one resolution step sees as a string or data is what the general resolver gives; an archived dictionary resolves to a dictionary, and an archived array to an array of its length |
| ReplyEnvelope.WalkerRefinesResolver | crates/gputools-replay/src/reply.rs:54-129 | whenever the one-step walker and the general resolver both succeed on one archive, info and data are the resolved root's entries, last repeat winning, and the count of unknown is that of the resolved array |
| ReplyEnvelope.ArchivedReplyParses | crates/gputools-replay/src/reply.rs:54-129 | on an archive of any dictionary the walker succeeds if and only if info and data are data and unknown is a collection, at any depth, and returns those entries |
| ReplyEnvelope.ReplyErrorIsReal | crates/gputools-replay/src/reply.rs:54-129 | every parse error names a real defect: of the envelope, of the payload dictionary, of one of its pairs, or a name behind no key |
| LittleEndian.SameReads | crates/gputools-replay/src/util.rs:5-19 | a read of 2, 4 or 8 bytes depends only on those bytes |
| LittleEndian.SameU32 | crates/gputools-replay/src/util.rs:11-13 | two 32-bit reads are equal if and only if the four bytes are |
| LittleEndian.SameU16 | crates/gputools-replay/src/util.rs:5-7 | two 16-bit reads are equal if and only if the two bytes are |
| LittleEndian.SameU64 | crates/gputools-replay/src/util.rs:17-19 | two 64-bit reads are equal if and only if the eight bytes are |
| Records.CollectUnmapped | crates/gputools-replay/src/reply.rs:229-235 | the insert loop keeps exactly the listed slots, each under its own offset's name with its own word |
| Records.OffsetNamesDistinct | crates/gputools-replay/src/reply.rs:204-227 | no two slots share a name, so no unmapped word can displace another |
| Records.SameUnmapped | crates/gputools-replay/src/reply.rs:229-235 | two chunks give equal unmapped maps if and only if every listed word is equal |
| Records.ChunkKernel | crates/gputools-replay/src/reply.rs:142-446 | the exact kernel of all six layouts: two chunks decode equal if and only if they agree outside 0x48..0x4a and 0x4e..0x50 (texture), outside 0x36..0x38 (wireframe), everywhere (the other four) |
| Records.DropsNothingExactly | crates/gputools-replay/src/reply.rs:142-145 | the documented promise that nothing is dropped holds of a layout if and only if that is neither texture nor wireframe |
| Records.TwoChunksOneRecord | crates/gputools-replay/src/reply.rs:142-145 | two different chunks of each of these layouts that decode alike |
| RecordTables.TableKernel | crates/gputools-replay/src/reply.rs:457-472 | the same over whole tables, whose lengths must agree too |
| RecordTables.RecordRoundTrip | crates/gputools-replay/src/reply.rs:274-446 | decoding inverts encoding for every record a layout can produce, in all six layouts |
| RecordTables.DecodedWellFormed | crates/gputools-replay/src/reply.rs:274-446 | every decoded record is one of those |
| RecordTables.ChunkRoundTrip | crates/gputools-replay/src/reply.rs:142-145 | encoding inverts decoding if and only if the dropped bytes are zero: always for buffers, heaps, acceleration structures and pipelines |
| RecordTables.ParseRecords | probes/src/reply.rs:124-165 | the probe's loops fail exactly on a trailing partial record, and otherwise give one record a chunk, each with every unmapped slot |
| RecordTables.TextureFactorsThroughProbe | crates/gputools-replay/src/reply.rs:274-297 | the texture decoder is a projection of the probe decoder |
| RecordTables.ProbeKeepsTwoMore | probes/src/reply.rs:55-57 | the probe's unmapped slots are the texture decoder's and the words at 0x48 and 0x4c |
| RecordTables.ProbeLossless | probes/src/reply.rs:124-165 | two chunks the probe decodes equal are equal |
| Payloads.Decode | crates/gputools-replay/src/reply.rs:457-490 | the method with its validation loop computes the pure decode |
| Payloads.ValidateExact | crates/gputools-replay/src/reply.rs:473-488 | validation succeeds if and only if every range fits, and otherwise names the first record that does not |
| Payloads.DecodesExactly | crates/gputools-replay/src/reply.rs:457-490 | a reply decodes if and only if its table is a multiple of 80 bytes and every (offset, size), read off words 0x18 and 0x1c of its chunk, lies in the blob |
| Payloads.PayloadIsTheRange | crates/gputools-replay/src/reply.rs:499-502 | for a decoded reply's own records the empty fallback is unreachable: the payload is the whole range |
| Payloads.AlignedBuf.constructor | crates/gputools-replay-hl/src/bytes.rs:41-49 | the copy holds exactly the source bytes, in whole 16-byte cells with zeros behind them, and starts at a multiple of 16 wherever it is placed |
| Payloads.ShareRecords | crates/gputools-replay-hl/src/capture.rs:192-206 | every payload built over the shared aligned copy is in bounds and yields the bytes of the reply's own payload |
| Payloads.ViewRecords | crates/gputools-replay-hl/src/capture.rs:198-205 | one view a record, of that record's range, in order |
| Payloads.TextureCasts | crates/gputools-replay-hl/src/image.rs:222-240 | in the record's own fields: a texture is cast if and only if its rows are unpadded, its range holds them and its offset is aligned, and then gives width * height elements, which are the leading bytes of the range |
| Payloads.TexturePacks | crates/gputools-replay-hl/src/image.rs:137-160 | in the record's own fields: packed, byte x of row y is byte y * bytes_per_row + x of its range, exactly when rows and range allow |
| Payloads.TexturePacksBlocks | crates/gputools-replay-hl/src/image.rs:543-577 | the same of a compressed texture in rows of blocks |
| Payloads.WireframeCasts | crates/gputools-replay-hl/src/image.rs:406-434 | in the record's own fields: a colour wireframe is cast if and only if its rows fit 32 bits, its range holds them and its offset is aligned, and is the leading bytes of the range |
| Formats.OneCombinedFormat | crates/gputools-replay-hl/src/format.rs:57-60 | over the whole table exactly one raw format is combined depth and stencil |
| Formats.TableGeometry | crates/gputools-replay-hl/src/format.rs:471-655 | every colour format has an element size of a power of two up to 16, and every compressed one a block of 4 to 12 texels a side and 8 or 16 bytes |
| Formats.ColorsExactly | crates/gputools-replay-hl/src/format.rs:479-551 | the pixel size of every colour format by its number, and byte alignment for all but the packed ones |
| Formats.BlocksExactly | crates/gputools-replay-hl/src/format.rs:553-637 | the block of every compressed format by its number |
| Formats.AspectsExactly | crates/gputools-replay-hl/src/format.rs:639-649 | the aspects and nominal size of the six depth and stencil formats |
| Images.CheckedLenExact | crates/gputools-replay-hl/src/image.rs:99-113 | no checked product overflows, so the check is the plain comparison of row length and of total length |
| Images.CollectRows | crates/gputools-replay-hl/src/image.rs:54-81 | the eager row loop computes the pure rows |
| Images.RowsExact | crates/gputools-replay-hl/src/image.rs:54-81 | rows succeeds if and only if the element fits the format, the bounds hold and every row starts aligned |
| Images.PackBytes | crates/gputools-replay-hl/src/image.rs:137-160 | the copying loop and the borrowed branch compute the pure packing |
| Images.PackedBytesExact | crates/gputools-replay-hl/src/image.rs:137-160 | packed_bytes is the concatenation of each row's first width * bpp bytes, height * width * bpp in all, borrowed exactly when the rows are unpadded |
| Images.RowsArePacked | crates/gputools-replay-hl/src/image.rs:54-160 | where rows succeeds it has one row a line, and flattened these are the packed bytes |
| Images.PixelsAreRows | crates/gputools-replay-hl/src/image.rs:36-81 | pixels succeeds if and only if rows does, the rows are unpadded and the image starts aligned; then both are the same elements and the packed bytes |
| Images.ByteAlignmentExactly | crates/gputools-replay-hl/src/image.rs:326-334 | the documented promise that pixels succeeds only on byte-aligned formats holds of a raw format if and only if that is not packed colour |
| Images.PackedPixelAccepted | crates/gputools-replay-hl/src/image.rs:36-52 | an image of the packed format 40 on which pixels succeeds |
| Images.PixelsNeedAlignedOffset | crates/gputools-replay-hl/src/image.rs:326-334 | in a buffer that starts at a multiple of 16, sufficient unpadded rows are cast if and only if the offset of the payload is a multiple of the element's alignment, and are misaligned otherwise |
| Images.ElementExactly | crates/gputools-replay-hl/src/image.rs:172-190 | the element size of every format that has one, by its number, and which error the others give |
| Images.PixelsExactly | crates/gputools-replay-hl/src/image.rs:36-52 | every outcome of pixels, in order: wrong element size, padded rows, too few bytes, misaligned, else the leading bytes in elements |
| Images.AccessErrors | crates/gputools-replay-hl/src/image.rs:54-160 | what rows and packed_bytes answer when they fail, and exactly when packed_bytes does |
| Images.PackedPlaces | crates/gputools-replay-hl/src/image.rs:137-160 | byte x of row y of the packed bytes is byte y * bytes_per_row + x of the payload |
| Images.PackBlocks | crates/gputools-replay-hl/src/image.rs:543-577 | the copying loop and the borrowed branch compute the pure block packing |
| Images.PackedBlocksExact | crates/gputools-replay-hl/src/image.rs:543-577 | packing succeeds if and only if a fetched row holds a tight one and the rows fit; then its length is exactly ceil(w/bw) * ceil(h/bh) * block_bytes and row y is the leading tight row at y times the fetched stride, in either branch |
| Images.BlockProducts | crates/gputools-replay-hl/src/image.rs:543-577 | the row length and the total that packing checks stay within the address space, so neither saturates nor overflows |
| Images.ExpectedLenExact | crates/gputools-replay-hl/src/image.rs:524-529 | the expected length is the exact product if that fits the address space, and the largest address otherwise |
| Images.RecordLenFits | crates/gputools-replay-hl/src/image.rs:512-529 | it fits for every image of a record, whose height has 16 bits |
| Images.ExpectedLenSaturates | crates/gputools-replay-hl/src/image.rs:512-529 | a 32-bit height with which it does not |
| Images.WireStrideHonoured | crates/gputools-replay-hl/src/image.rs:115-127 | the block stride is the wire stride if and only if block_bytes divides bytes_per_row; otherwise every row but the first starts elsewhere |
| Images.BlocksOfExactly | crates/gputools-replay-hl/src/image.rs:115-127 | blocks carries the image's own size, its block by format number and the stride in whole blocks; it fails exactly on formats that are not compressed |
| Images.PackedBlockPlaces | crates/gputools-replay-hl/src/image.rs:543-577 | byte x of block row y of the packed blocks is that of the payload at y times the stride of whole blocks, if the rows fit, and else the answer is the truncation error |
| Images.WireframeExactly | crates/gputools-replay-hl/src/image.rs:406-434 | a wireframe keeps its size and format, and its stride is of nominal pixels by format number, none for formats that have no pixel |
| Images.WireframeUnpadded | crates/gputools-replay-hl/src/image.rs:406-434 | a stride derived in 32 bits is reported as padding if and only if the rows do not fit 32 bits or the format is one of the two stencil formats of a wider nominal pixel and there are columns |
| Strides.StridedByte | crates/gputools-replay-hl/src/image.rs:137-160 | byte x of row y of a packed image is byte x of row y of the fetched one |
| Strides.StridedTight | crates/gputools-replay-hl/src/image.rs:137-160 | packing unpadded rows is taking the leading bytes |
| Strides.StridedTightens | crates/gputools-replay-hl/src/image.rs:137-160 | the same of all rows and columns at once, and no byte more |
| Strides.GroupAt | crates/gputools-replay-hl/src/image.rs:36-52 | bytes cast to elements are as many as fit, each the bytes at its own place |
| Harvester.ParsedAccess | crates/gputools-replay/src/harvester.rs:45-102 | on a parsed block no access fails: the payload is in bounds and a plane is present exactly below the count, read at its own offset |
| Harvester.ParseExactly | crates/gputools-replay/src/harvester.rs:45-68 | exactly what is refused and as what: no tag, then another type, then descriptors or metadata that do not fit |
| Harvester.RequiredSizeIsLeast | docs/findings/02-harvester.md:94-97 | (0x30*n + 0x117) & ~0xff is the least multiple of 256 that is at least 0x18 + 0x30*n |
| Harvester.ProducedBlockParses | crates/gputools-replay/src/harvester.rs:45-102 | a block laid out by the producer parses to exactly the planes and exactly the payload written |
| Harvester.PayloadAfterDescriptors | crates/gputools-replay/src/harvester.rs:45-68 | payload and descriptors are disjoint if and only if the metadata size covers the descriptors, which the parser does not require |
| Harvester.OverlapAccepted | crates/gputools-replay/src/harvester.rs:45-68 | a block whose payload overlaps its own descriptor is accepted |
| Harvester.PayloadAgreesWithFramework | docs/findings/02-harvester.md:32-33 | the payload is the framework's if and only if the version is not 1 |
| Harvester.VersionOneAccepted | crates/gputools-replay/src/harvester.rs:45-68 | an accepted version 1 block whose payload is not the framework's |
| Join.ZipBestEffort | crates/gputools-replay-hl/src/describe.rs:85-124 | the two-cursor walk and the two filters return the greedy pairing, the unplaced rest and the transparent descriptors |
| Join.WalkKeys | crates/gputools-replay-hl/src/describe.rs:92-108 | the loop over the keys, with its cursor and its placed buffer, keeps both exact at every key |
| Join.PositionsEmbed | crates/gputools-replay-hl/src/describe.rs:94-107 | what is placed is a prefix of the non-combined descriptors, embedded in order at equal keys |
| Join.GreedyIsOptimal | crates/gputools-replay-hl/src/describe.rs:94-107 | no longer prefix embeds in order, and no embedding of any prefix puts a descriptor at an earlier key |
| Join.PositionsArePaired | crates/gputools-replay-hl/src/describe.rs:94-107 | a descriptor is paired with exactly the key at its greedy position |
| Join.NothingUnplacedExactly | crates/gputools-replay-hl/src/describe.rs:85-124 | unplaced is empty if and only if the whole non-combined list is a subsequence of the keys |
| Join.PairingAscends | crates/gputools-replay-hl/src/describe.rs:94-107 | later keys get later descriptors, each of the key's own width, height and format and never combined |
| Join.TransparentExactly | crates/gputools-replay-hl/src/describe.rs:117-122 | the transparent indices are those of the combined descriptors and no others, in order |
| Join.SolidExactly | crates/gputools-replay-hl/src/describe.rs:109-116 | the placeable indices are all the others, in order |
| Join.RecoversExactly | crates/gputools-replay-hl/src/describe.rs:12-23 | a true order-preserving pairing is recovered if and only if it skips no descriptor and no extra key equals the descriptor pending at its position |
| Join.ShiftLimitation | crates/gputools-replay-hl/src/describe.rs:12-23 | when every placeable descriptor was fetched, that is: if and only if no extra texture has the exact geometry of the pending descriptor |
| Join.TruthRecovered | crates/gputools-replay-hl/src/describe.rs:12-23 | the same in descriptor indices, for any true pairing with non-combined descriptors |
| DescribeLaws.AttributionRecovered | crates/gputools-replay-hl/src/describe.rs:127-168 | the same for the whole join over textures in any order, repeated refs included: the truth must moreover give nothing to a repeat |
| Join.GivesAllExactly | crates/gputools-replay-hl/src/describe.rs:94-107 | every key with a descriptor is given some descriptor if and only if each is awaited where it comes: the longest prefix of placeable descriptors that embeds in the keys before it is followed by one of its geometry |
| Join.CompleteGivesAll | crates/gputools-replay-hl/src/describe.rs:94-107 | when every placeable descriptor was fetched, that is: if and only if no extra key has the geometry of the descriptor pending at its position |
| DescribeLaws.NoneLeftOutExactly | crates/gputools-replay-hl/src/describe.rs:28-36 | the documented promise that only an undescribed texture has no descriptor holds if and only if no repeat is described and every described texture is awaited where it comes |
| DescribeLaws.HeadOfLineBlocks | crates/gputools-replay-hl/src/describe.rs:94-107 | a first placeable descriptor whose geometry no texture has blocks all behind it: every texture goes without and all placeable descriptors are left |
| DescribeLaws.DescribedLeftOut | crates/gputools-replay-hl/src/describe.rs:28-36 | so textures go without although the manifest has a descriptor of exactly their geometry |
| DescribeLaws.AttributionSound | crates/gputools-replay-hl/src/describe.rs:70-72 | every descriptor handed out is the manifest's, has exactly its texture's width, height and format, is not combined, and goes to the first texture with its ref |
| DescribeLaws.RestByFormat | crates/gputools-replay-hl/src/describe.rs:73-82 | transparent descriptors are of the combined format and unplaced ones are not |
| DescribeLaws.UnplacedExactly | crates/gputools-replay-hl/src/describe.rs:109-116 | the unplaced indices are those of the placeable descriptors no key was paired with, in order |
| DescribeLaws.RestInOrder | crates/gputools-replay-hl/src/describe.rs:109-167 | transparent is every descriptor of the combined format and unplaced every other one that no texture was given, both in manifest order |
| Describe.DescribeTextures | crates/gputools-replay-hl/src/describe.rs:131-168 | the whole join, with its early return for an empty manifest, its seen set and its scatter loop, computes the pure join |
| Describe.DropRepeats | crates/gputools-replay-hl/src/describe.rs:140-148 | the filter through the mutable seen set keeps the ordered first occurrences |
| Describe.StableOrderSorts | crates/gputools-replay-hl/src/describe.rs:142-143 | the order is a permutation of the indices, by ref and then by position |
| Describe.FirstsExact | crates/gputools-replay-hl/src/describe.rs:140-148 | sort and filter keep exactly the first index of every streamRef, by ascending ref |
| Describe.FirstsUnique | crates/gputools-replay-hl/src/describe.rs:140-148 | that condition has one solution |
| Describe.NoDescriptors | crates/gputools-replay-hl/src/describe.rs:132-138 | the early return is what the join would give |
| DescribeLaws.Conservation | crates/gputools-replay-hl/src/describe.rs:67-75 | the multiset of descriptors is matched plus unplaced plus transparent, and the documented count law holds |
| DescribeLaws.EachIndexOnce | crates/gputools-replay-hl/src/describe.rs:76-84 | every descriptor index is in exactly one of the three lists, exactly once |
| DescribeLaws.OrderIndependent | crates/gputools-replay-hl/src/describe.rs:127-148 | with distinct refs, permuting the fetched textures permutes per_texture alike and leaves unplaced and transparent unchanged |
| DescribeLaws.DescribedByIndex | crates/gputools-replay-hl/src/describe.rs:155-167 | the descriptors handed out are those at the attributed indices |
| DescribeLaws.OnlyFirstAttributed | crates/gputools-replay-hl/src/describe.rs:140-148 | only the first input occurrence of a ref is attributed, and only to a non-combined descriptor of its geometry and format |
| DescribeLaws.AttributionAscends | crates/gputools-replay-hl/src/describe.rs:140-160 | attributed descriptor indices strictly increase with streamRef |
| Observer.MarkAttributes | crates/gputools-replay/src/session.rs:144-157 | a mark is answered exactly by the error at its own index, and further errors never change that answer |
| Observer.ErrorObserver.Record | crates/gputools-replay/src/session.rs:129-138 | errors are only ever appended |
| Observer.ErrorObserver.ErrorCount | crates/gputools-replay/src/session.rs:148-150 | the mark is the number of errors so far |
| Observer.ErrorObserver.FirstErrorSince | crates/gputools-replay/src/session.rs:155-157 | Some exactly when the mark is below the count, and then the error at the mark |
| Observer.ErrorObserver.FirstError | crates/gputools-replay/src/session.rs:142-144 | the first error of all, if there is any |
| Fetch.ReadExactly | crates/gputools-replay/src/fetch.rs:219-253 | a reply is read exactly from a response without its own error whose data parses to it; a read error is never a timeout or another error of the caller's side |
| Fetch.ReadFailsExactly | crates/gputools-replay/src/fetch.rs:219-253 | every other response exactly: no usable object, the response's own error whatever data comes with it, no data, data that does not parse |
| FetchLaws.RunKeeps | crates/gputools-replay/src/fetch.rs:303-490 | the protocol invariant (marks in order, one taker, slot, polls, verdict, serial fetches) holds after every run of any interleaving |
| FetchLaws.StepKeeps | crates/gputools-replay/src/fetch.rs:303-490 | every step of caller and framework keeps it |
| FetchLaws.AnswerExactly | crates/gputools-replay/src/fetch.rs:482-489 | every answer exactly: no token; else the error at the fetch's own mark if one was recorded by the check, over a reply and a timeout alike; else what was collected. Once an error is past the mark, the answer is that error if and only if a token was given |
| FetchLaws.NoTokenSkipsCheck | crates/gputools-replay/src/fetch.rs:383-484 | a run in which an error recorded before -fetch: gives no token goes unanswered |
| FetchLaws.CleanAnswer | crates/gputools-replay/src/fetch.rs:303-490 | Ok means no error between mark and final check, and the reply is what the first block entry to take this fetch's handler read |
| FetchLaws.TimeoutAnswer | crates/gputools-replay/src/fetch.rs:427-448 | a timeout is answered only in silence and after polls that all found the slot empty |
| FetchLaws.TimeoutNeedsDeadline | crates/gputools-replay/src/fetch.rs:438-440 | the wait times out only after an empty poll and at or past the deadline |
| FetchLaws.ChargedOnce | crates/gputools-replay/src/session.rs:152-157 | no error is charged to two fetches of a session; later fetches are charged later errors |
| FetchLaws.LateErrorCharged | crates/gputools-replay/src/fetch.rs:485-488 | attribution is by time: an error reported between wait and check becomes the answer whatever caused it |
| FetchLaws.TimedOutErrorChargedToNext | crates/gputools-replay/src/fetch.rs:450-490 | a run in which an error reported after one fetch timed out overrides the clean reply the next one had collected |
| FetchLaws.HandlerOnce | crates/gputools-replay/src/fetch.rs:326-365 | at most one entry of the completion block ever has the handler |
| FetchLaws.SlotAges | crates/gputools-replay/src/fetch.rs:271-283 | over any continuation of any run the slot goes empty, full, empty at most once with one value, and the handler stays with its taker |
| FetchEquivalence.BlockCheckIsRedundant | crates/gputools-replay/src/fetch.rs:318-365 | for every interleaving a blocking fetch returns at the same step with the same answer whether or not the completion block checks the observer |
| FetchEquivalence.BlocksAlike | crates/gputools-replay/src/fetch.rs:347-358 | an error the block sees past the inner mark is one the caller sees past the outer mark |
| FetchEquivalence.LateFiringsIsolated | crates/gputools-replay/src/fetch.rs:326-365 | erasing everything the block of a returned fetch does later changes no other fetch, no error and no answer |
| Blocking.OutcomeCell.StoreInto | crates/gputools-replay/src/fetch.rs:271-283 | a store fills an empty slot and leaves a full one |
| Blocking.OutcomeCell.Take | crates/gputools-replay/src/fetch.rs:429-437 | a take returns what the slot held and empties it |
| Blocking.CompletionBlock.Enter | crates/gputools-replay/src/fetch.rs:338-365 | one entry of the completion block, on observer, handler and slot: check over a clean reply, take the handler once, store through it |
| Blocking.PumpUntil | crates/gputools-replay/src/fetch.rs:427-448 | with the framework reporting and entering the block in every turn, the polling loop terminates on a clock that advances at each pump, and returns what the slot holds at the poll where it ends, or the timeout |
| Blocking.EndsOnce | crates/gputools-replay/src/fetch.rs:427-448 | it ends at one poll only, within as many turns as the timeout has ticks |
| Blocking.FirstFiringWins | crates/gputools-replay/src/fetch.rs:265-283 | the slot holds what the first entry of the block read, under the errors recorded by then, whatever came after |
| Blocking.WaitExactly | crates/gputools-replay/src/fetch.rs:427-448 | a wait times out if and only if the block was not entered by the poll at which it ends, and that at or past the deadline; otherwise it gives what the first entry stored |
| Blocking.AnswerByReports | crates/gputools-replay/src/fetch.rs:482-489 | the first message reported between mark and check is the answer, over a reply and a timeout alike; in silence the outcome of the wait is |
| Blocking.DecodedExactly | crates/gputools-replay/src/fetch.rs:489 | an outcome is answered with its own error, or with its reply in one record of the layout asked for at every 80 bytes if and only if 80 divides the table and every range fits, or with the parse error |
| Blocking.MisfitAnswered | crates/gputools-replay/src/reply.rs:473-488 | the first record whose range does not fit is the parse error, with its offset and size |
| Blocking.FetchTable | crates/gputools-replay/src/fetch.rs:473-490 | the blocking composition, with reports and block entries before, during and after the wait: empty batch, setup error, no token, else the decoded verdict over the outcome of the wait |
| BlockingRuns.WaitIsRun | crates/gputools-replay/src/fetch.rs:427-448 | every execution of the polling loop is a run of the protocol that collects the same outcome |
| BlockingRuns.FetchIsRun | crates/gputools-replay/src/fetch.rs:473-490 | every blocking fetch is a run of the protocol from the session it finds, with the same answer and errors, so all that holds of every run holds of it |
| SessionOpen.RunKeeps | crates/gputools-replay/src/session.rs:254-368 | the invariant of concurrent opens holds after every run |
| SessionOpen.OneShot | crates/gputools-replay/src/session.rs:31-34 | in every interleaving at most one call passes the swap, and the flag is set if and only if one has |
| SessionOpen.FlagMonotone | crates/gputools-replay/src/session.rs:31-34 | no step clears the flag, and only a call at the swap sets it |
| SessionOpen.RejectedEarly | crates/gputools-replay/src/session.rs:254-267 | in any state a call that the bundle, path or environment check rejects ends with that error and leaves flag, observer, reports and other calls as they were |
| SessionOpen.SwapExactly | crates/gputools-replay/src/session.rs:268-270 | in any state the swap lets a call through if and only if the flag is clear, and leaves it set |
| SessionOpen.EveryCallByAnswers | crates/gputools-replay/src/session.rs:254-361 | in every interleaving each call stands, and ends, exactly where the answers it got put it: with the error of the first that refuses it |
| SessionOpen.PastSwapPassedChecks | crates/gputools-replay/src/session.rs:254-267 | a call past the swap was accepted by all three checks before it |
| SessionOpen.AlreadyOpenBlames | crates/gputools-replay/src/session.rs:268-270 | a call is refused as already open only when another has passed the swap |
| SessionOpen.ObserverBeforeLoad | crates/gputools-replay/src/session.rs:314-357 | before every load the framework holds this call's observer, which has recorded every report since it was registered |
| SessionOpen.OpensExactly | crates/gputools-replay/src/session.rs:351-361 | an open that ends succeeds if and only if its load returned true and nothing was reported between registration and check; otherwise the check answers with the first report, and only in silence with the failed load |
| SessionOpen.AtMostOneSession | crates/gputools-replay/src/session.rs:254-368 | no call but the one that passed the swap ever opens a session |

## Left out

- Foreign calls, class bindings, layout checks and `build.rs`: opaque behaviour outside the crates.
- Property-list bytes: the model starts from the value tree they parse to, or from there being none.
- Error message texts: an error keeps its kind and its numbers, not its wording; messages reported by the framework are kept, but not truncated.
- Building a request batch: object construction through the framework; why it failed, if it did, is a parameter.
- Mutex poisoning: every lock in the source recovers the value it guards, so it changes nothing.
- `Capture` accessors, request builders, environment configuration: immutable fields or single branches.
- The tables of format names, usage names and numeric kinds: lookups; only element sizes, block geometry and aspects are kept.
- `accel.rs` and `buffer.rs`: one bounds check before a cast, weaker forms of the image results.
- The bytes of an element: an element is a group of bytes of a given size and alignment, not a number.
- `probes/src/session.rs`: the fused predecessor of the fetch protocol.
- The stable sort is a library call in the source; it is a function here, pinned by `Describe.StableOrderSorts`.
- Images.WireframeImage: cuts the derived stride to 32 bits, as an optimised build does; that a checked build panics there instead is not modelled.
- Payloads.AlignedBuf.constructor: the cell at which the allocator places the copy is a parameter.
- Join.ZipBestEffort: reads of a descriptor only its key and whether its format is combined; `Describe.EntryOf` computes both. Its two result buffers are sequences that the loop reassigns.
- Blocking.PumpUntil: the framework's part of each turn of the wait is a parameter, and a turn advances the clock by at least one tick; that a real clock does is not proved. An entry of the block is one step here; its own steps interleave with the caller's in `Fetch`.
- Fetch.Step: a poll takes the slot in one step and a block stores in one step, as each holds the slot's lock; finer interleavings inside a lock are not modelled.
- SessionOpen.Step: initialising the controller and the client is one step without a failure, as the source discards its result.
