# TSSD: a verified model

TSSD encodes typed values into a schema-described byte stream, cuts the stream into frames of
bounded size, and puts values together again from frames that arrive in any order, over any
chunking, between noise and damaged frames. This project models that in Dafny and proves what
it promises, layer by layer and then end to end.

| layer | files | content |
|---|---|---|
| wire | `wire.dfy`, `types.dfy`, `layout.dfy` | little-endian fields with their wrap-around, tags, type trees, values, normal forms; every byte of values, streams and frames in plain numbers |
| codec | `codec.dfy`, `roundtrip.dfy`, `exactness.dfy`, `incremental.dfy`, `nesting.dfy`, `stability.dfy`, `refusals.dfy`, `waiting.dfy` | both encoders and the decoder on byte strings; round trips and exactly when they hold, also with slices in lists, prefixes, exactly when a verdict stands, retries, what is refused, skipped and left alone, and that waiting can always be ended |
| schema stream | `shapes.dfy`, `taking.dfy`, `parsing.dfy` | the stream of a type and what it identifies; exactly which types of one stream can be dumped under which; the in-place parser |
| fragmented buffer | `pieces.dfy`, `buffer.dfy`, `queue.dfy`, `saving.dfy`, `dumping.dfy` | the class that appends, reads, patches and seals fragments; the buffer as a queue; the save and dump functions over it |
| framing | `frames.dfy`, `framing.dfy`, `sending.dfy` | heads, checksums, MTU arithmetic, marshalling, merging and splitting |
| receiver | `magic.dfy`, `scan.dfy`, `receiver.dfy`, `delivery.dfy`, `progress.dfy` | the incremental state machine, chunking invariance, resynchronisation, progress |
| reassembly | `reassembly.dfy`, `demux.dfy` | pushing fragments in any order, several objects side by side |
| whole way | `endtoend.dfy`, `sharing.dfy` | value in, frames out, chunks in, value out; many objects over one stream |

Where the source changes state step by step, so does the model: `Fragment`, `Buffer`, `RBuffer`,
`Shelf` and `Root` are classes, and their methods are proved against functions on byte strings
(`Enc`, `Dump`, `Chop`, `FrameOf`, `Classify`, `Next`, `Whole`, `PushAll`, `Run`, `Serve`,
`Stream`). The theorems are about those functions. A fragment has its heads and payload in one
array, and its checksum in the same one when there is room for it, as in the source; a buffer's
ghost field `ps` lists its payloads.

What comes back from a round trip is the normal form `Norm`. It differs from the value saved only
where a nil is written like another: a pointer to a nil slice or map is written like a nil
pointer, and so is, at three levels and more, a pointer to a nil pointer whose own target is a
pointer. At two levels the source keeps them apart: the outer nil is a zero byte, the inner one
the negated tag.

A `Status` tells success, missing data (`Short`), malformed data (`Bad`) and behaviour outside what
Go defines (`Fault`: a runtime panic or a write past a fixed array). The checksum function is a
parameter; `FixedLength` says that all its sums have one length, and is asked for only where the
length and number of frames, or their acceptance, depend on that.

Some properties turn out to hold only under conditions, which are stated exactly:

- A value comes back if and only if its counts fit an int16 and its texts an int32
  (`RoundTripExactly`).
- Slices directly in a slice or array are all dumped into the first place, since the element stride
  is the length of an empty value. Saved by address, all of them are the first; saved reflectively,
  as parts of map values are, they follow each other into that place. So such a list, at any depth,
  comes back over a destination if and only if that place ends as the first element and the
  destination already holds the others (`NestedRoundTripExactly`, for two levels
  `SlicesByAddress`, `SlicesReflectively` and `SlicesIntoNil`).
- Only such lists can make the two families of save functions differ, and they do unless every
  slice is saved as the first (`EncodersAgreeExactly`, `SlicesAlike`).
- Of two types with one schema stream, what is saved under the first can always be dumped under the
  second if and only if the second takes the first: wherever the first has a pointer to a pointer
  so has the second, and no list of the first can have more elements than the one of the second
  can take (`SameStreamExactly`, with the values obtained in `DumpsUnder`).
- A frame is received as itself if and only if its payload has at most 32767 bytes
  (`FrameParsesExactly`), so a merged object is lost beyond that.
- After a split, heads keep the payload size of the old MTU: no frame but the last is received as
  itself (`SealedIsReceived`, `SplitFramesAreLost`).
- A buffer filled and finished here, whole as it is, is never said to be complete: its last fragment
  goes out with its final number but keeps the first one in its schema (`OwnIsWanting`; only where
  the numbers wrap does the search end).
- A dump of a merged list ignores a failed read. So the verdict of a dump stands, whatever is
  appended, if and only if no merged list it came to was short (`StableExactly`,
  `MergedStableExactly`).

## Model

| member | source | states |
|---|---|---|
| `Layout.WrittenFields` | tssd/buffer.go:238-265 | fields are little-endian: the weights of their bytes, and that only the part above the field is lost |
| `Layout.ReadFields` | tssd/buffer.go:289-299 | they are read as signed: in the range of the width and congruent to the bytes |
| `Layout.NegatedTag` | tssd/typeinfo.go:183-192 | the byte of a nil is the negative of the tag as an int8 |
| `Layout.ValueLayout` | tssd/typeinfo.go:40-408 | the bytes of every kind of value, with tags and sizes in plain numbers |
| `Layout.NilPointerLayout` | tssd/typeinfo.go:399-408 | the byte a nil pointer is written as, by the type behind it |
| `Layout.PartsLayout` | tssd/typeinfo.go:139-336 | fields, elements and entries follow each other, entries with a tag in front of key and value |
| `Layout.StreamLayout` | tssd/typeinfo.go:521-646 | the tags each type contributes to the schema stream, in plain numbers |
| `Layout.FrameLayout` | tssd/buffer.go:28-68 | all bytes of a frame, from the magic word to the checksum |
| `RoundTrip.FirstByte` | tssd/typeinfo.go:183-192 | the first byte tells a nil from a value, and for a pointer a nil exactly when the normal form is nil |
| `RoundTrip.Forward` | tssd/typeinfo.go:153-181 | what fits is dumped from in front of anything, over any destination, to its normal form and its exact end |
| `RoundTrip.ForwardMerged` | tssd/typeinfo.go:275-313 | a merged list is cut apart again at the size of its elements |
| `RoundTrip.ForwardPairs` | tssd/typeinfo.go:338-377 | map entries come back in the order saved, values normalised, keys unchanged |
| `RoundTrip.KeyNorm` | tssd/typeinfo.go:338-377 | keys are their own normal form, so distinct keys stay distinct |
| `RoundTrip.EncodersAgree` | tssd/typeinfo_map.go:55-256 | the reflective save functions write the same bytes as the address-based ones, for every type without slices directly in lists |
| `Exactness.Backward` | tssd/typeinfo.go:139-181 | a value that does not fit its counts is never dumped to its normal form and exact end |
| `Exactness.RoundTripExactly` | tssd/typeinfo.go:139-427 | dumping an encoding gives the normal form and the exact rest if and only if the value fits |
| `Nesting.NestedDump` | tssd/typeinfo.go:194-253 | with slices in lists at any depth, what either family saved is dumped over any destination to its exact end, and becomes what `Back` says |
| `Nesting.BackIsNorm` | tssd/typeinfo.go:153-427 | without them that is the normal form |
| `Nesting.Again` | tssd/typeinfo.go:241-245 | dumping the first slice once more for every other one changes nothing |
| `Nesting.NestedRoundTripExactly` | tssd/typeinfo.go:599-604 | a value of either family comes back over a destination if and only if, at every list of slices, the first place ends as the first element and the others are there already |
| `Nesting.SlicesByAddress` | tssd/typeinfo.go:194-216 | a list of slices saved by address comes back exactly when the destination already holds all elements but the first |
| `Nesting.SlicesReflectively` | tssd/typeinfo_map.go:142-155 | saved as a map value, the last must come back as the first would, and the destination hold the others |
| `Nesting.SlicesIntoNil` | tssd/typeinfo.go:599-604 | into nil: exactly when all but the first are nil; in a map, when there is one or all are nil |
| `Nesting.PrefixFree` | tssd/typeinfo.go:139-151 | no encoding of either family is the start of another of the type |
| `Nesting.EncodersAgreeExactly` | tssd/typeinfo_map.go:142-155 | the two families write the same bytes exactly when every slice in a list is saved as the first of it |
| `Nesting.SlicesAlike` | tssd/typeinfo_map.go:142-155 | that is, for slices of anything else, when all have one normal form |
| `Incremental.SelfDelimiting` | tssd/typeinfo.go:139-151 | two encodings in front of anything are equal if and only if the normal forms and the rests are |
| `Incremental.EncOfNorm` | tssd/typeinfo.go:399-408 | a value and its normal form are written alike |
| `Incremental.PrefixIsShort` | tssd/buffer.go:302-321 | every strict prefix of an encoding is reported as insufficient, never as success or malformed |
| `Refusals.OtherTagsAreRefused` | tssd/typeinfo.go:45-64 | a byte that is neither the tag nor its negative is refused, and no byte is waited for; the destination stays |
| `Refusals.ZeroIsBlank` | tssd/typeinfo.go:399-427 | a fresh value is zeros all the way down, and the only one that is |
| `Refusals.NegativeTagsSkip` | tssd/typeinfo.go:107-132 | at a negative tag only what can be nil becomes nil, an array becomes zeros, and everything else stays |
| `Refusals.NilPointersLeaveValues` | tssd/typeinfo.go:57-59 | a nil pointer to a base value, text, time or struct leaves such a destination as it is |
| `Refusals.NilSlicesClearArrays` | tssd/typeinfo.go:246-247 | a nil slice makes every element of an array zeros |
| `Refusals.PointersPassOn` | tssd/typeinfo.go:410-427 | a pointer becomes nil at that byte, and otherwise goes on with what it points to, or with zeros |
| `Refusals.SizesAreThere` | tssd/buffer.go:302-321 | the sizes of a container are there or waited for, never refused |
| `Refusals.OtherCountsAreRefused` | tssd/typeinfo.go:165-167 | a struct with another number of fields is malformed, whatever follows |
| `Refusals.NegativeCounts` | tssd/typeinfo.go:218-252 | a negative count is a panic for a slice, nothing for an array, an empty map for a map |
| `Refusals.MergedIsRefused` | tssd/typeinfo.go:275-313 | a merged list needs its element tag; sizes are waited for; a negative count is a panic |
| `Refusals.ShortMergedIsIgnored` | tssd/typeinfo.go:300-312 | a short merged list leaves a destination of its length as it is, reads nothing and reports nothing |
| `Refusals.TextLengths` | tssd/typeinfo.go:73-81 | a text is waited for, panicked on when its length is negative, or exactly its bytes |
| `Refusals.TimesAreTexts` | tssd/typeinfo.go:83-113 | a time needs the tag of its text |
| `Refusals.FailuresLeave` | tssd/typeinfo.go:379-397 | a failure leaves base values, texts, times, merged lists and maps as they were |
| `Refusals.FieldsUpToFailure` | tssd/typeinfo.go:169-173 | fields in front of the one that fails are dumped, those behind it stay |
| `Refusals.ElementsUpToFailure` | tssd/typeinfo.go:241-245 | elements in front of the one that fails come out, it keeps what it got, those behind it stay |
| `Refusals.SkippedElements` | tssd/typeinfo.go:230-245 | a slice with enough elements is cut to the count and kept, one with fewer replaced by zeros |
| `Refusals.SkippedFields` | tssd/typeinfo.go:153-181 | skipped fields of a struct stay |
| `Refusals.EntryTags` | tssd/typeinfo.go:348-377 | entries need the tags of key and value, and fail as these do |
| `Refusals.PutReplaces` | tssd/typeinfo.go:374-374 | a repeated key keeps its entry and gets the new value |
| `Refusals.EntriesAreEntered` | tssd/typeinfo.go:338-377 | entries are assigned in order, repeated keys included |
| `Refusals.LastAssigned` | tssd/typeinfo.go:338-377 | then every key is there once, with the value assigned last |
| `Waiting.DumpCanEnd` | tssd/typeinfo.go:45-427 | whatever came so far, something can follow with which the dump ends and which nothing later changes |
| `Stability.Stable` | tssd/typeinfo.go:45-181 | a dump that did not run out of data, and came to no short merged list, gives the same result when more data follows |
| `Stability.StableExactly` | tssd/typeinfo.go:45-427 | of dumps that did not run out of data, exactly those that came to no short merged list have the same result whatever follows |
| `Stability.MergedStableExactly` | tssd/typeinfo.go:275-313 | the dump of a merged list stands whatever follows if and only if none of the elements it announces is missing |
| `Stability.Retry` | tssd/rbuffer.go:83-88 | dumping again, with more data, over a destination half filled by a failed dump ends as one dump would, for every type, unless a merged list was short |
| `Stability.DumpKeepsType` | tssd/typeinfo.go:45-427 | whatever the bytes and however it ends, a dump leaves a value of its type in the destination |
| `Stability.RestIsSuffix` | tssd/typeinfo.go:45-427 | what a dump leaves is the end of what there was, and shorter unless the data ran out |
| `Shapes.StreamTellsShape` | tssd/typeinfo.go:521-646 | type streams are uniquely decodable: equal, in front of anything, exactly when shapes and rests are equal |
| `Taking.DumpsUnder` | tssd/typeinfo.go:153-427 | what is saved under one type is dumped under any that takes it to its exact end, and becomes what `Convert` says |
| `Taking.SameStreamExactly` | tssd/typeinfo.go:36-38 | of types with equal streams: all that is saved under the first can be dumped under the second, over anything and in front of anything, if and only if that takes it |
| `Taking.TakesItself` | tssd/typeinfo.go:399-408 | every type takes itself, with all its arrays and pointers |
| `Taking.ConversionToItself` | tssd/typeinfo.go:153-427 | the conversion to the same type is the normal form, over any destination |
| `Taking.DoublePointersAreUnfit` | tssd/typeinfo.go:399-408 | a nil pointer to a pointer is malformed under every type that has none there, whatever follows |
| `Taking.ArraysAreUnfit` | tssd/typeinfo.go:218-253 | more elements than an array has are never taken, whatever follows; when the first are, the next is a fault |
| `Parsing.ShouldIgnore` | tssd/typeinfo.go:501-519 | a field is left out exactly when unexported, of a type whose name begins with tssd.Flat, or tagged with a dash |
| `Parsing.ToTssdType` | tssd/typeinfo.go:452-481 | the tag of every kind, by number |
| `Parsing.TagsTellKinds` | tssd/typeinfo.go:452-481 | values travel in the width they have in Go, and only int and int64, uint and uint64 share a tag |
| `Parsing.KeptIs` | tssd/typeinfo.go:581-595 | the fields kept are those not ignored |
| `Parsing.KeptInOrder` | tssd/typeinfo.go:581-595 | in their order |
| `Parsing.TreeIs` | tssd/typeinfo.go:521-646 | the tree says of each type what the Go type says |
| `Parsing.SupportedIsNestable` | tssd/typeinfo.go:521-646 | exactly the Go types without arrays directly in lists, with counts that fit and comparable keys, give trees the theorems are about |
| `Parsing.TreesAreKept` | tssd/typeinfo.go:572-595 | the fields of a struct's tree are those of its kept fields, in order |
| `Parsing.Root.SetType` | tssd/typeinfo.go:491-499 | appends the tag, with its subtype for a time, and returns its position |
| `Parsing.Root.UpdateType` | tssd/typeinfo.go:483-486 | replaces one tag |
| `Parsing.Root.ParseStruct` | tssd/typeinfo.go:556-597 | the count patched after the children is the number of kept fields, whatever they append |
| `Parsing.Root.ParseList` | tssd/typeinfo.go:599-621 | the tag patched after the element is the list's own, merged exactly when the element is a base value |
| `Parsing.Root.DoParse` | tssd/typeinfo.go:521-646 | the shared root grows by the tags asked for and the stream of the tree, for any nesting |
| `Parsing.Parse` | tssd/typeinfo.go:648-654 | parsing on a fresh root gives the tree and its stream |
| `Pieces.ChopArithmetic` | tssd/buffer.go:130-168 | chopped payloads join to the whole, all but the last are full, and their number is the rounded-up quotient |
| `Pieces.ChopIs` | tssd/buffer.go:130-168 | pieces full but for a last one that is not empty are the chopped whole |
| `Pieces.PutInPiece` | tssd/buffer.go:276-287 | replacing bytes of a piece replaces the same bytes of the whole |
| `Buffers.Buffer.Over` | tssd/rbuffer.go:76-82 | a buffer over given bytes has exactly these to read |
| `Buffers.Buffer.PeekByte` | tssd/buffer.go:180-189 | gives the next byte, exactly when there is one, and consumes nothing |
| `Buffers.Buffer.Read` | tssd/buffer.go:199-236 | gives the next n bytes across any fragments, or changes nothing when there are fewer |
| `Buffers.Buffer.ReadByte` | tssd/buffer.go:174-177 | gives and consumes the next byte |
| `Buffers.Buffer.DumpSize2` | tssd/buffer.go:289-293 | reads a signed two-byte number |
| `Buffers.Buffer.DumpSize4` | tssd/buffer.go:295-299 | reads a signed four-byte number |
| `Buffers.Buffer.CheckDumpSizet` | tssd/buffer.go:302-311 | a size larger than what is left is insufficient data, with its own bytes consumed |
| `Buffers.Buffer.CheckDumpSize` | tssd/buffer.go:314-321 | size and count of a container, as the decoder's function has them |
| `Buffers.Buffer.Rewind` | tssd/buffer.go:70-76 | everything held is unread again, and the size is its length |
| `Buffers.Buffer.Append` | tssd/buffer.go:130-168 | the contents grow by the bytes, over as many fragments as they take; what was there and the cursor stay |
| `Buffers.Buffer.NewFragment` | tssd/buffer.go:139-152 | a fresh fragment carries the heads with its own number patched in |
| `Buffers.Buffer.UpdateFragmentId` | tssd/buffer.go:267-274 | patches bytes 16 and 17 and nothing else |
| `Buffers.Buffer.WritePos` | tssd/buffer.go:87-96 | names the place where the next byte will go, also at a fragment border |
| `Buffers.Buffer.UpdateSize` | tssd/buffer.go:276-287 | overwrites four bytes of the contents, across a fragment border if need be, and nothing else; what is unread stays as much |
| `Buffers.Buffer.CloseLast` | tssd/buffer.go:98-111 | the last fragment is cut to its length and gets that length and its final number |
| `Buffers.Buffer.AppendChecksum` | tssd/buffer.go:118-128 | seals a fragment with the checksum array of what it holds |
| `Buffers.Buffer.Finish` | tssd/buffer.go:98-116 | every fragment is sealed as `SealedData` says, the payloads and the numbers in the schemas unchanged |
| `Buffers.Buffer.Merge` | tssd/buffer.go:375-383 | same contents in exactly one sealed fragment; nothing changes below two fragments |
| `Buffers.Buffer.Split` | tssd/buffer.go:386-391 | same contents chopped to the room of the smaller MTU and sealed; otherwise nothing changes |
| `Buffers.Buffer.Resplit` | tssd/buffer.go:394-414 | the same for any MTU that leaves payload room; otherwise nothing changes |
| `Queue.NothingIsLostOrReordered` | tssd/buffer.go:130-236 | of a byte queue, what was taken out and what is left is what was there and what was put in, in order |
| `Queue.PerformAll` | tssd/buffer.go:130-236 | any interleaving of appending, reading and peeking is answered as that queue would |
| `Buffers.Buffer.Wanted` | tssd/buffer.go:358-372 | computes the number of the first fragment missing, or 0, from the numbers the fragments carry |
| `Buffers.Buffer.OwnIsWanting` | tssd/buffer.go:98-116 | of a buffer finished here it names the fragment behind the last, or nothing where the numbers wrap |
| `Buffers.Buffer.Push` | tssd/buffer.go:324-354 | which fragments are refused and why; an accepted one replaces what its place held; the size stays the sum |
| `Saving.Save` | tssd/typeinfo.go:40-408 | from any fill level, the contents grow by exactly `Enc` of the value |
| `Saving.SaveObj` | tssd/typeinfo.go:139-151 | the size patched in afterwards counts what follows it, wherever the fragments are cut |
| `Saving.SaveList` | tssd/typeinfo.go:194-216 | the same for lists, element by element |
| `Saving.SaveMerged` | tssd/typeinfo.go:255-273 | merged lists are appended in one run behind their element tag |
| `Saving.SaveDict` | tssd/typeinfo.go:315-336 | the same for maps, each entry with its key and value tags |
| `Saving.MapSave` | tssd/typeinfo_map.go:55-97 | from any fill level, the contents grow by exactly `MapEnc` of the value |
| `Saving.MapSaveObj` | tssd/typeinfo_map.go:99-109 | structs of the reflective encoder |
| `Saving.MapSaveList` | tssd/typeinfo_map.go:142-155 | lists of the reflective encoder |
| `Saving.MapSaveMerged` | tssd/typeinfo_map.go:189-202 | merged lists of the reflective encoder, element by element |
| `Dumping.DumpInto` | tssd/typeinfo.go:45-427 | dumping from a buffer is the function `Dump` of its unread bytes, for every input and destination |
| `Dumping.DumpString` | tssd/typeinfo.go:73-81 | texts, with a negative length reported as the panic it is |
| `Dumping.DumpTime` | tssd/typeinfo.go:83-113 | times behind their text tag |
| `Dumping.DumpObj` | tssd/typeinfo.go:153-181 | structs, with the fields dumped before a failure left in the destination |
| `Dumping.DumpListInto` | tssd/typeinfo.go:218-253 | lists; those elements that an array has are dumped ahead of the fault |
| `Dumping.DumpMergedInto` | tssd/typeinfo.go:275-313 | merged lists, with the failed read ignored |
| `Dumping.DumpDict` | tssd/typeinfo.go:338-397 | maps, assigned only when all entries are there |
| `Magic.NoOverlap` | tssd/tssd.go:12 | two magic words never overlap |
| `Magic.SkipFive` | tssd/rbuffer.go:221-222 | skipping five bytes behind a magic word skips no other |
| `Magic.SeekAppend` | tssd/rbuffer.go:155-203 | a search continued over the kept tail finds what one search over all data would |
| `Magic.SeekPastNoise` | tssd/rbuffer.go:155-203 | noise without a magic word does not make or hide one at its end |
| `Framing.SchemaComesBack` | tssd/tssd.go:141-154 | marshalled and unmarshalled over any earlier one, a schema comes back exactly when its number is an int16 |
| `Frames.MergedHead` | tssd/rbuffer.go:46-59 | an accepted length is what its count says; too little data is told from a bad head, with the bytes still needed |
| `Frames.Classify` | tssd/rbuffer.go:61-153 | a valid frame lies within the data, and a wait asks for at least one byte more |
| `Frames.ClassifyStable` | tssd/rbuffer.go:128-153 | a verdict other than "too short" stands whatever arrives later |
| `Frames.ClassifyRetry` | tssd/rbuffer.go:83-97 | a schema half filled by an earlier attempt makes no difference to the next |
| `Framing.LeadForm` | tssd/buffer.go:46-54 | the layout of the heads: the fragment number lies at byte 16 |
| `Framing.PatchFidIsReencoding` | tssd/buffer.go:267-274 | patching the number is encoding the schema with that number |
| `Framing.PatchSizeIsRelayout` | tssd/buffer.go:109-110 | patching the sizes is laying the heads out with them |
| `Framing.ChecksumDecides` | tssd/tssd.go:117-123 | of well-formed bytes the checksum decides, and an empty one is not compared |
| `Framing.AnnouncedSizeDecides` | tssd/rbuffer.go:61-126 | a sealed body is received as itself exactly when its heads announce its payload's length and that fits |
| `Framing.FrameParsesExactly` | tssd/rbuffer.go:61-153 | a frame parses back as exactly itself if and only if its payload length fits |
| `Framing.FrameIsLongEnough` | tssd/rbuffer.go:65-67 | with twelve-byte hash and checksum a frame has at least 74 bytes |
| `Sending.LayHeads` | tssd/buffer.go:36-66 | the heads are laid out exactly when a payload byte fits behind them |
| `Sending.Prepare` | tssd/buffer.go:28-68 | succeeds exactly when heads and checksum leave a byte of the MTU asked for, and then fragments have that room |
| `Sending.SealedIsFrame` | tssd/buffer.go:98-128 | each sealed fragment is the frame of its payload: number i+1, or -n for the last, and its own size |
| `Sending.Marshal` | tssd/factory.go:40-54 | succeeds exactly then, and the buffer holds exactly the frames of the encoding chopped to the room of a frame |
| `Sending.FramesFitTheMtu` | tssd/buffer.go:57-66 | no frame exceeds the MTU, all but the last are exactly as long, and their number is the rounded-up quotient |
| `Sending.MtuLaw` | tssd/buffer.go:28-68 | frames are at most as long as asked for, with 1440 for 0 and 128 for less than that, all but the last exactly; there are any exactly when a payload byte fits |
| `Sending.RoomIs` | tssd/buffer.go:57-66 | the payload room by the lengths of the texts and the checksum |
| `Sending.MergedIsOneFrame` | tssd/buffer.go:375-383 | a merged buffer, sent or received, holds the one frame of its object, numbered -1 |
| `Sending.SealedIsReceived` | tssd/buffer.go:98-116 | a fragment sealed under given heads is received as itself exactly when last or of the announced size |
| `Sending.SplitFramesAreLost` | tssd/buffer.go:394-414 | hence after a split no frame but the last is received as itself |
| `Scan.Next` | tssd/rbuffer.go:207-225 | a frame leaves less to look at, and a wait asks for at least one byte more |
| `Scan.NextExtend` | tssd/rbuffer.go:207-225 | with more data a frame or panic stands, and a wait goes on from what it kept |
| `Scan.WholeExtend` | tssd/rbuffer.go:250-266 | scanning in two parts is scanning at once |
| `Scan.ChunkingDoesNotMatter` | tssd/rbuffer.go:207-225 | frames with their schemas, what is left, and panics depend on the joined stream alone |
| `Receiver.RBuffer.DetectMagic` | tssd/rbuffer.go:155-203 | goes to the first magic word of old and new data, or keeps the last four bytes |
| `Receiver.RBuffer.DumpMergedHead` | tssd/rbuffer.go:46-59 | computes the head function at a position of the data |
| `Receiver.RBuffer.HeadsStep` | tssd/rbuffer.go:61-97 | the cached heads are always those of a fresh parse, whatever was appended since |
| `Receiver.RBuffer.PayloadStep` | tssd/rbuffer.go:99-109 | the payload position is cached once the payload is there, and the missing bytes are told |
| `Receiver.RBuffer.ChecksumStep` | tssd/rbuffer.go:111-126 | the same for the checksum |
| `Receiver.RBuffer.UnmarshalFragment` | tssd/rbuffer.go:128-153 | going on from the caches gives the verdict of classifying all data from scratch |
| `Receiver.RBuffer.Extract` | tssd/rbuffer.go:207-225 | the outcome is the first frame of everything held, as if it had arrived at once; the search ends |
| `Receiver.RBuffer.TakeFragment` | tssd/rbuffer.go:275-289 | the fragment has the frame's bytes in an array of its own, and exactly these leave the data |
| `Receiver.RBuffer.Drain` | tssd/rbuffer.go:250-266 | all frames of everything held come out, each as a fragment |
| `Delivery.NextIsSent` | tssd/rbuffer.go:163-202 | a frame behind noise is the next to come out, whatever follows |
| `Delivery.BrokenIsSkipped` | tssd/rbuffer.go:221-223 | behind what is a bad frame together with what follows, and has no further magic, the receiver goes on as if the stream began there |
| `Delivery.DamagedIsBroken` | tssd/tssd.go:117-123 | a frame with a wrong checksum is such a bad frame, whatever follows |
| `Delivery.TruncatedIsBroken` | tssd/rbuffer.go:111-126 | and so is a frame cut short, when what follows has no checksum head at its place |
| `Delivery.StreamIsReceived` | tssd/rbuffer.go:207-225 | of noise, good, damaged and cut frames exactly the good frames come out, in order |
| `Delivery.NothingIsPassedOver` | tssd/rbuffer.go:163-225 | in any stream each magic word is rejected as a candidate, lies in a frame taken, or is still ahead |
| `Delivery.TraceIsTrue` | tssd/rbuffer.go:163-225 | each rejection is of a magic word that begins no frame, each frame taken is one, and the receiver stops only without a magic word, for want of data, or in a panic |
| `Delivery.EveryMagicIsDecided` | tssd/rbuffer.go:163-225 | of every magic word there is such a decision, true of the stream: it begins no frame, lies in a frame taken, or the receiver waits ahead of it |
| `Delivery.TakenIsEmitted` | tssd/rbuffer.go:139-152 | the frames that come out are the stretches of the stream said to be taken |
| `Progress.ClassifyCanEnd` | tssd/rbuffer.go:128-153 | whatever a candidate begins with, something can follow that decides on it |
| `Progress.WaitCanEnd` | tssd/rbuffer.go:207-225 | so a receiver waiting on a candidate can always be made to go on |
| `Progress.ArrayHeads` | tssd/rbuffer.go:46-59 | the head of an array of bytes is accepted exactly when complete, tagged, not negative and counted right |
| `Progress.NoFrameIsBroken` | tssd/rbuffer.go:68-88 | no schema tag, another struct tag or another number of fields make a broken frame |
| `Progress.SchemaFailsAs` | tssd/rbuffer.go:83-88 | heads fail as the first failing field of their schema does |
| `Progress.WrongFieldIsRefused` | tssd/rbuffer.go:83-88 | another tag at any field of the schema is refused |
| `Progress.NegativeTextPanics` | tssd/typeinfo.go:73-81 | a text of negative length in a schema is a panic of the receiver |
| `Progress.WrongHeadIsRefused` | tssd/rbuffer.go:90-93 | so is a schema without the head of a payload behind it, as malformed |
| `Progress.WrongChecksumHeadIsBroken` | tssd/rbuffer.go:111-118 | a payload without the head of a checksum behind it makes a broken frame |
| `Progress.GoodFrameComesOut` | tssd/rbuffer.go:207-225 | behind noise and a broken frame the next good one comes out |
| `Progress.NextBehindNoFrame` | tssd/rbuffer.go:207-225 | hence a frame with another number of schema fields costs nothing but itself |
| `Progress.CutFrameIsWaitedFor` | tssd/rbuffer.go:61-126 | a frame cut off anywhere is waited for, with the number of bytes missing |
| `Progress.CutFrameIsKept` | tssd/rbuffer.go:207-219 | behind noise too: exactly what came of it is kept |
| `Progress.NoiseIsDropped` | tssd/rbuffer.go:185-190 | of noise the last four bytes are kept |
| `Reassembly.HeldPush` | tssd/buffer.go:346-352 | a push changes the size by its payload less the one it replaces |
| `Reassembly.PushedIsHeld` | tssd/buffer.go:324-354 | after any pushes of an object's fragments exactly those pushed are held, each at its place |
| `Reassembly.OrderDoesNotMatter` | tssd/buffer.go:324-354 | order and repetition make no difference |
| `Reassembly.WantedExactly` | tssd/buffer.go:358-372 | nothing is wanted exactly when all fragments are there; otherwise the first missing one is |
| `Reassembly.HeldIsArrived` | tssd/buffer.go:346-352 | the size is the sum of the distinct payloads that arrived |
| `Reassembly.AllHeld` | tssd/buffer.go:70-76 | a complete buffer holds the sender's payloads in order |
| `Demux.ObjectsDoNotMix` | tssd/rbuffer.go:312-354 | each object is what its own pushes and removals alone would have made of it, for any interleaving |
| `Demux.PutFiles` | tssd/rbuffer.go:328-346 | a registered fragment changes the object of its family, version and identifier at the place of its number, and no other |
| `Demux.PutFilesUnknown` | tssd/rbuffer.go:313-327 | an unregistered one that of its types and identifier |
| `Demux.Shelf.Push` | tssd/rbuffer.go:312-354 | routes a fragment to its object only, and reports completion exactly when that object wants nothing |
| `Demux.Shelf.TakeComplete` | tssd/rbuffer.go:292-308 | hands out and forgets a complete object of the family and version, exactly when there is one |
| `Sharing.OwnArrivals` | tssd/rbuffer.go:312-354 | what happens to an object are exactly the pushes of its own frames in the stream |
| `Sharing.ObjectsShareAStream` | tssd/rbuffer.go:228-354 | of many objects over one stream, in any interleaving and chunking, each wants nothing exactly when all its own frames came, else the first missing |
| `Sharing.ServeChunk` | tssd/rbuffer.go:250-266 | draining a chunk and filing its fragments is the run of these pushes; whether the last, and whether any, completed its object |
| `Sharing.ExtractReader` | tssd/rbuffer.go:228-272 | reads chunks up to the first that is empty or whose last fragment completes an object; serves all of them, and tells exactly whether any object was completed |
| `Sharing.StopRule` | tssd/rbuffer.go:250-266 | reading stops at an empty chunk, or when the last fragment of the chunk leaves its registered object complete |
| `Sharing.ReceiveShared` | tssd/rbuffer.go:228-272 | called until the chunks are used up, it leaves the objects of the joined stream, or panics exactly when that does |
| `Sharing.SharedObjectsReadBack` | tssd/rbuffer.go:228-354 | each of the objects sharing a stream wants nothing exactly when all its frames came, and then dumps to its own value in normal form |
| `Sharing.ReadComplete` | tssd/rbuffer.go:292-308 | takes a complete object off and reads it; when there is none, nothing changes |
| `Sharing.PiecesAreMail` | tssd/rbuffer.go:312-354 | any stream that has only frames of objects with identifiers of their own is mail of these |
| `Sharing.ReceiveNext` | tssd/rbuffer.go:228-308 | all chunks in, one object out, whatever room each sender had: what is read is its value in normal form and came in full; nothing is read only if no object of the family and version came in full |
| `EndToEnd.ObjectIsSendable` | tssd/buffer.go:28-68 | the frames of a marshalled object are ones a receiver can take |
| `EndToEnd.ObjectArrives` | tssd/rbuffer.go:228-272 | what reassembly holds after a stream are exactly the fragments delivered in it |
| `EndToEnd.Delivered` | tssd/rbuffer.go:207-272 | any order, repetition, noise, damage and chunking: nothing is wanted exactly when each frame came, and then the dump is the normal form |
| `EndToEnd.ReadObject` | tssd/factory.go:57-70 | rewinding and dumping a complete buffer gives the normal form and reads everything |
| `EndToEnd.ReceiveObject` | tssd/misc.go:90-100 | the receiving classes do that for one object: drain, push, want, rewind, dump |
| `EndToEnd.Pipe` | tssd/misc.go:76-101 | marshal, hand over in any order, receive: the value in normal form exactly when no frame was left out |

## Left out

- Dumping.DumpTime: a time is its RFC 3339 text, so a text that the time parser refuses is accepted here.
- Framing.AnnouncedSizeDecides: announced sizes of 2^31 and more are excluded, since their wrapped fields can name another payload.
- Incremental.PrefixIsShort: encodings of more than 2^31 bytes are excluded, since their wrapped size can be smaller than what is there.
- EndToEnd.ReceiveObject: one object in one buffer, as in `Pipe`; `Sharing.ReceiveShared` keeps several apart.
- Sharing.ExtractReader: chunks are what the reader gives; errors given with them, and how much it is asked for, are left out.
- Buffers.Buffer.Resplit: heads of fewer than 24 bytes are excluded (so for Merge and Split); only a frame whose schema is a nil has such, where the number and the sizes share bytes.
- Demux.Shelf.Push: the nested maps of families, versions and objects are one map with a combined key.
- Arrays directly in lists, whose stride is their length instead of their size, and recursive types, which the parser does not end on.
- RoundTrip.KeyNorm: a time key is its text, so two times that differ but have one text (by location or monotonic reading) are one key.
- Dumping.DumpListInto: an element that begins behind the end of an array is a fault at its first byte, also one that the source would refuse or skip before writing.
- Map keys with Go pointers or NaN, whose equality is not that of their encodings; map iteration order is the order of a value's entries.
- Spare slice capacity: a slice destination offers the elements it has as its backing store; aliasing between decoded values.
- Struct types with more than 32767 fields and arrays of more than 32767 elements: `WellFormed` excludes them.
- `uintptr` and unsupported kinds, for which the parser only prints a message.
- MD5, hex and random object identifiers: the checksum function and the schema's texts are parameters.
- Machines that are not little-endian or have no 64-bit words: values are copied from memory as they lie there.
- `Clear`, which keeps the write index of a buffer that had several fragments.
- Reading from and writing to streams, `Pipe`'s random shuffle (any order is allowed instead), registration, decoration, and printing.
