# Verification of the image manager's data-carrying core

This project models the parts of the repository that must not lose or alter data, and
proves what they are for. Each module mirrors one source component: the code is an
imperative method (or a class, where the source has one) that is proved equal to a
specification function, and the laws are lemmas about these functions, for every input
or every run.

- **XMP in image files** (`Webp`, `Png`, `Jpeg` with their laws, `WebpWrites`,
  `PngMeaning`, `Crc32`, `PngText`). The
  byte walkers replace one metadata chunk and copy the rest. They are proved against a
  list of chunks that is parsed and printed. A written file parses back, reads back the
  packet that was written, keeps every other chunk or segment, and a second write gives
  what it would have given on the original file. What follows IEND in a PNG file, or makes
  no chunk, and what follows the RIFF size in a WebP file is dropped
  (`PngLaws.TailDropped`, `WebpLaws.TailDropped`). `JpegLaws`, `WebpWrites` and `PngMeaning`
  say what the formats are, byte by byte: which files are read, and as what, and exactly
  which are written to, and as what. The PNG metadata extractor, which is a
  separate reader, sees no difference but under the XMP keyword.
- **XMP packets and merges** (`Packet`, `PacketMeaning`, `PacketReading`, `PacketWriting`,
  `PacketRoundTrip`, `PacketMerge`). The parser renames namespace prefixes as it goes; it
  is proved to show exactly what the XML says by namespace URI. Parsing what a merge
  writes gives what the old packet meant, with the merges made and every other namespace
  as it was, but for the names and items listed below.
- **The lock registry of merges** (`MergeLock`, `MergeLockSweeps`): an interleaving of single steps with
  explicit reference counts, in which locks are dropped while others are taken.
- **BLAKE2b-128** (`Words`, `Folds`, `BlockHashing`, `Blake2b`, `Blake2bReference`): the
  hand-written loop against RFC 7693, whose words and steps are also given bit by bit, and
  the mixing as a bijection.
- **The groups index** (`Groups`, `GroupsLaws`, `GroupPaths`, `GroupFolders`): pages against
  one pass, which files are grouped together, and the cache with its signature check.
- **Dynamic prompts** (`Braces`, `BraceLaws`, `BraceOutcomes`, `BraceMeaning`, `ChoiceMarks`,
  `ChoicePatterns`, `BraceAnalysis`, `BraceReports`, `Combinations`): the mutually recursive expander draws from an
  arbitrary oracle, and the analysis knows pick counts and weights besides.
- **Concurrent runs** (`WorkSteal`, `WorkStealRuns`, `Supervisor`, `SupervisorRuns`):
  transition systems over every interleaving.
- **Tables** (`TagStore`, `Watcher`, `WatcherRuns`, `WatcherKeeps`): replacing tags, and following the
  file system.
- **Limits and secrets** (`ApiKeyLimit`, `PinLimit`, `Base64Url`, `SecretStore`,
  `SecretFormats`): bounds and readability over whole runs.

Bytes are the subset type `byte` of the integers; words of 32 and 64 bits are naturals
with explicit wrap-around. Random numbers, clocks, AES, HMAC, letter case and the XML
library enter as parameters; what is assumed of them is a `requires` clause
(`SecretStore.Works`, `SecretStore.KeysMatter`, `PacketWriting.ReadsXml`), and
`SecretStore.ToyWorks` and `PacketWriting.LibraryExists` show that it can be met. Of the XML
library it is assumed that tags with proper names are read as they are written, that the
names it gives have no white space in them, and that a text comes in the pieces between its
references, each without the white space around it; an end tag that does not match makes
the packet malformed.

## What the code does not do

Each of these is a property that one would expect and that the code does not have. It is
stated with inputs on which it fails, and with the exact condition on which it holds, for
the inputs that the lemmas require.

- An XMP packet that is written is not always read back. A list whose element is named
  `li` is lost, because its end tag is taken for that of an item, and an item with `&`, `<`
  or `>` in it or white space around it is changed (`PacketRoundTrip.OneListSurvives`).
  With white space in the name of a list its end tag does not match, and the whole packet
  is lost (`PacketRoundTrip.SpacedNameLost`); an attribute with white space in its name is
  never read back (`PacketRoundTrip.SpacedAttrLost`). Any list written after one whose
  prefix has no URI and whose element is named `Description` is lost, because that end tag
  is taken for the end of the description (`PacketRoundTrip.LateListLost`). Everything else
  is read back (`PacketRoundTrip.SerializedShows`), so a packet whose names are proper or
  have white space in them survives exactly when there is none of this
  (`PacketRoundTrip.ParseOfSerialize`), and a merge exactly when it leaves no name with
  white space in it, no list named `li` and only plain items (`PacketMerge.MergeReadsBack`).
- The prompt analysis and the expansion do not agree on what a choice is. The analysis
  reports no choice that lies inside emphasis braces, though expansion makes it
  (`BraceAnalysis.EmphasisHidesChoice`); it knows pick counts, which expansion does not, so
  it reports `{2$$a}`, which expansion leaves alone (`BraceAnalysis.PickUnexpanded`), and
  passes over `{2$$|}`, which expansion changes (`BraceAnalysis.BlankPickUnreported`).
  `BraceAnalysis.ReportsOuterChoices` says exactly when nothing is reported, and
  `BraceAnalysis.SettledReports` when that is so for a prompt that expansion leaves alone.
- A reported expression is its choices, joined by bars in braces, exactly when it has
  neither a pick count nor weights (`BraceAnalysis.JoinedIffUniform`); the weights of
  `{2::a|3::b}` are not among its choices (`BraceAnalysis.WeightedNotJoined`).
- The two splitters differ on texts like `}a|b` and `}{a|b}`
  (`BraceAnalysis.SplittersDiffer`); they agree exactly when they count the same bars as
  being at depth zero (`BraceAnalysis.SplittersAgree`).
- A groups index passes its own signature check exactly when the signature's time is not
  below zero (`GroupsLaws.BuiltPasses`), so not with one live file from before 1970
  (`GroupsLaws.OldFileFails`). An index that was given out goes on being given out, whatever
  becomes of the table, until the cache is dropped (`GroupsLaws.SameUntilDropped`): asked
  for again after a file was added, it is that of the empty table
  (`GroupsLaws.StaleIndexGivenOut`).
- `comb_sat` equals the binomial coefficient exactly when its largest product fits in 64
  bits (`Combinations.CombSat`); it does not for k out of 2k from k = 64 on
  (`Combinations.HalfSaturates`).
- A file that is renamed away is reported as modified, so its row stays live though it is
  gone (`WatcherRuns.RenamedAwayStays`). A comment at `crates/yu-server/src/watcher.rs:256-258` says that a
  rename arrives as a removal and a creation; the code maps every modification kind,
  renames included, to a modification, and the model follows the code. Over all runs the
  row comes to agree exactly when the last report fits the file, or the file is gone and
  the row was dead already (`WatcherRuns.AgreesIff`, `WatcherRuns.ChangeAgreesIff`).
- A value in the old format, without a key id, becomes unreadable when another key is
  imported (`SecretStore.OldLost`, and `SecretStore.OldLostOnce` with all values given). It
  is readable exactly when the primary key is the one it was issued under: with a
  passphrase, without an import since, or when the last import brought the same key
  (`SecretStore.OldReadableIff`). Once a key has been rotated in, no value is issued in
  that format (`SecretStore.NewAfterRotation`).

## Model

| member | source | states |
|---|---|---|
| Crc32.ComputeCrc32 | crates/xmp-core/src/io/png.rs:32-39 | the table-driven loop gives the bit-at-a-time CRC-32 register for every byte string |
| Crc32.Crc32Table | crates/xmp-core/src/io/png.rs:13-30 | entry n of the table is n shifted through the register eight times |
| Crc32.LookupFeedsByte | crates/xmp-core/src/io/png.rs:34-37 | one table step equals eight shift-and-xor steps on the whole register |
| Crc32.ShiftLinear | crates/xmp-core/src/io/png.rs:17-25 | the shift register is linear over exclusive or |
| Crc32.FeedAllShifts | crates/xmp-core/src/io/png.rs:32-39 | a whole message, read as one number, can be pushed through the register at once |
| Crc32.DetectsBursts | crates/xmp-core/src/io/png.rs:32-39 | two messages of one length that differ within 32 consecutive bits have different checksums |
| Crc32.ChecksumFits | crates/xmp-core/src/io/png.rs:32-39 | every checksum fits the four-byte field of a chunk |
| Crc32.PolynomialTerms | crates/xmp-core/src/io/png.rs:17-25 | the constant is the polynomial of PNG, each power at its place from the top |
| Webp.ParseChunks | crates/xmp-core/src/io/webp.rs:67-107 | the loop over positions finds exactly the chunks of the file, or the same error, in both modes |
| Webp.ParseOfPrint | crates/xmp-core/src/io/webp.rs:67-107 | parsing printed chunks gives the chunks back |
| Webp.PrintOfParse | crates/xmp-core/src/io/webp.rs:67-107 | printing parsed chunks gives the bytes back, so nothing of a chunk is lost |
| Webp.ReadXmp | crates/xmp-core/src/io/webp.rs:115-120 | reading is the payload of the first XMP chunk, without the size check |
| Webp.PushChunk | crates/xmp-core/src/io/webp.rs:122-135 | appends a chunk with its padding byte, and fails exactly when the size does not fit 32 bits |
| Webp.BuildVp8xPayload | crates/xmp-core/src/io/webp.rs:34-46 | the buffer is filled as the payload that announces the dimensions |
| Webp.WriteXmp | crates/xmp-core/src/io/webp.rs:137-235 | both branches, every error and the patched size give the edited chunk list, assembled |
| Webp.WriteExtended | crates/xmp-core/src/io/webp.rs:137-235 | the branch for files that have a VP8X chunk |
| Webp.WritePromoted | crates/xmp-core/src/io/webp.rs:137-235 | the branch that promotes a simple file |
| Webp.FinishRiff | crates/xmp-core/src/io/webp.rs:137-235 | patching bytes 4 to 8 gives the RIFF size, or the error when it does not fit |
| WebpLaws.WriteParsesBack | crates/xmp-core/src/io/webp.rs:137-235 | a written file parses to the edited chunks, has even length and a RIFF size of its length less 8 |
| WebpLaws.ReadAfterWrite | crates/xmp-core/src/io/webp.rs:115-235 | reading a written file returns exactly the packet |
| WebpLaws.ExtendedWriteKeeps | crates/xmp-core/src/io/webp.rs:137-235 | every other chunk stays, byte for byte and in order; VP8X only gains the XMP flag |
| WebpLaws.PromotedWriteKeeps | crates/xmp-core/src/io/webp.rs:10-46 | a simple file keeps its chunks and gains a VP8X chunk with the nonzero dimensions and the alpha of the bitstream |
| WebpLaws.TailDropped | crates/xmp-core/src/io/webp.rs:67-235 | the same for what follows the RIFF size |
| WebpLaws.WriteTwice | crates/xmp-core/src/io/webp.rs:137-235 | of two successful writes the second wins, also across the promotion |
| WebpWrites.LossyIff | crates/xmp-core/src/io/webp.rs:10-21 | a payload is read as a lossy frame exactly when it has the start code, and two fields of 14 bits are its width and height |
| WebpWrites.LosslessIff | crates/xmp-core/src/io/webp.rs:23-32 | and as a lossless one exactly when it has the signature, two fields of 14 bits that are one less than width and height, and a bit for alpha |
| WebpWrites.ImageIff | crates/xmp-core/src/io/webp.rs:144-159 | a file without a VP8X chunk has dimensions exactly when it has lossy frames or lossless ones, but not both: those of the first, with alpha if it says so or there is an ALPH chunk |
| WebpWrites.ParseIff | crates/xmp-core/src/io/webp.rs:67-107 | a file parses for a write exactly when it is RIFF, a size that fits, WEBP, chunks with their padding, and what may follow |
| WebpWrites.ReadIff | crates/xmp-core/src/io/webp.rs:67-120 | a packet is read exactly when it is that of the first XMP chunk of a file whose chunks go on to its end, whatever its RIFF size says |
| WebpWrites.AnimatedRefused | crates/xmp-core/src/io/webp.rs:109-142 | a file with an ANIM or ANMF chunk is not written to |
| WebpWrites.NoImageRefused | crates/xmp-core/src/io/webp.rs:144-159 | nor is a file without a VP8X chunk that holds no such image |
| WebpWrites.SimpleWrite | crates/xmp-core/src/io/webp.rs:144-190 | a simple file is written to exactly when it holds such an image and the result fits, and the result is a VP8X chunk that declares its width, height and alpha, the packet, and the kept chunks |
| WebpWrites.ExtendedWrite | crates/xmp-core/src/io/webp.rs:192-235 | a file with VP8X chunks is written to exactly when they have ten bytes and the result fits, and the result is the kept chunks, in which a VP8X chunk has the XMP bit set and the packet after it |
| WebpWrites.KeptMeans | crates/xmp-core/src/io/webp.rs:168-213 | the kept chunks are all chunks that are not XMP |
| WebpWrites.KeptInOrder | crates/xmp-core/src/io/webp.rs:168-213 | in their order |
| WebpWrites.FourCcs | crates/xmp-core/src/io/webp.rs:67-235 | the four-character codes |
| Png.ReadXmp | crates/xmp-core/src/io/png.rs:56-108 | the walk finds the packet of the first XMP chunk before IEND |
| Png.ReadChunk | crates/xmp-core/src/io/png.rs:56-108 | the text of one iTXt chunk, past its keyword, flags, language and translated keyword |
| Png.BuildItxtChunk | crates/xmp-core/src/io/png.rs:41-54 | the appended buffers are the printed chunk, with its CRC over kind and data |
| Png.CopyOthers | crates/xmp-core/src/io/png.rs:110-171 | the loop copies exactly the chunks that are not XMP, up to IEND |
| Png.WriteXmp | crates/xmp-core/src/io/png.rs:110-171 | the whole write equals the list-level edit, errors included |
| PngLaws.NewChunkCarriesPacket | crates/xmp-core/src/io/png.rs:41-54 | the new chunk is recognised, carries the packet, and its CRC is that of its kind and data |
| PngLaws.WrittenChunks | crates/xmp-core/src/io/png.rs:110-171 | a written file walks as the other chunks, the new one and IEND |
| PngLaws.ReadAfterWrite | crates/xmp-core/src/io/png.rs:56-171 | reading a written file returns the packet |
| PngLaws.WriteKeepsOthers | crates/xmp-core/src/io/png.rs:110-171 | the other chunks are kept byte for byte and in order, and IEND when there is one |
| PngLaws.TailDropped | crates/xmp-core/src/io/png.rs:110-171 | a file is its chunks and a tail, and a write gives what it gives for the file without the tail |
| PngLaws.WriteTwice | crates/xmp-core/src/io/png.rs:110-171 | of two writes the second wins, byte for byte |
| PngText.ParsePngTextChunks | crates/meta-extract/src/png.rs:13-84 | the extractor's loop gives the entries and the compressed keywords of the chunks it walks |
| PngLaws.WriteInvisibleToExtractor | crates/meta-extract/src/png.rs:13-84 | a write changes nothing the extractor sees but under the XMP keyword |
| PngMeaning.PacketIff | crates/xmp-core/src/io/png.rs:77-104 | a chunk carries a packet exactly when it is a tEXt chunk with the XMP keyword, or an iTXt chunk with it, without compression and with two more fields that end in NUL; the packet is the rest |
| PngMeaning.EveryFile | crates/xmp-core/src/io/png.rs:56-171 | every file with the signature is chunks up to IEND, or up to where no chunk fits, and a tail |
| PngMeaning.ReadIff | crates/xmp-core/src/io/png.rs:56-108 | the packet that is read is that of the first such chunk before IEND |
| PngMeaning.OthersMean | crates/xmp-core/src/io/png.rs:110-171 | the chunks that are kept are all others |
| PngLaws.OthersAppend | crates/xmp-core/src/io/png.rs:110-171 | in their order |
| PngMeaning.WriteIs | crates/xmp-core/src/io/png.rs:110-171 | a write gives the signature, the kept chunks, the new one and IEND |
| PngMeaning.NotPngFile | crates/xmp-core/src/io/png.rs:58-118 | without the signature nothing is read, and nothing is written |
| PngMeaning.Names | crates/xmp-core/src/io/png.rs:10-11 | the signature, the keyword and the chunk types |
| PngMeaning.TextIff | crates/meta-extract/src/png.rs:51-56 | what a tEXt chunk gives: the text behind the first NUL under the keyword before it |
| PngMeaning.ItxtIff | crates/meta-extract/src/png.rs:58-84 | what an iTXt chunk gives: its text, or only its keyword if it is compressed |
| PngMeaning.ExtractedIff | crates/meta-extract/src/png.rs:13-50 | the extractor has under each key the entry of the last chunk before IEND that gives one, and the keys of the compressed chunks in order |
| Jpeg.FindXmpSegment | crates/xmp-core/src/io/jpeg.rs:24-93 | the walk that reading and stripping share finds the first XMP segment it reaches |
| Jpeg.ReadXmp | crates/xmp-core/src/io/jpeg.rs:24-58 | the packet of that segment |
| Jpeg.StripXmpApp1 | crates/xmp-core/src/io/jpeg.rs:60-93 | the file without that segment |
| Jpeg.WriteXmp | crates/xmp-core/src/io/jpeg.rs:95-128 | start of image, the new segment, and the rest of the stripped file; an error when the packet does not fit |
| Jpeg.ReadAfterWrite | crates/xmp-core/src/io/jpeg.rs:24-128 | reading a written file returns the packet |
| Jpeg.StripAfterWrite | crates/xmp-core/src/io/jpeg.rs:60-128 | stripping a written file gives the original without its first XMP segment |
| Jpeg.ReadIffStripped | crates/xmp-core/src/io/jpeg.rs:24-93 | a packet is read exactly when stripping removes a segment, and it is the packet of that segment |
| Jpeg.WriteTwice | crates/xmp-core/src/io/jpeg.rs:95-128 | of two writes the second wins, byte for byte |
| JpegLaws.FoundBehind | crates/xmp-core/src/io/jpeg.rs:24-93 | whatever segments, with whatever fill bytes, an XMP segment stands behind, its packet is read, and stripping removes its segment and nothing else |
| JpegLaws.ReadIff | crates/xmp-core/src/io/jpeg.rs:24-58 | a packet is read exactly when its segment stands behind segments that are passed over |
| JpegLaws.NothingFound | crates/xmp-core/src/io/jpeg.rs:32-57 | no packet is read and none is stripped when the walk reaches the start of scan, a byte that is no marker, or a length that does not fit |
| JpegLaws.EveryFile | crates/xmp-core/src/io/jpeg.rs:24-93 | every JPEG file is such segments and a place where the walk stops, or an XMP segment |
| JpegLaws.WriteMoves | crates/xmp-core/src/io/jpeg.rs:95-128 | a write puts the new segment first and leaves all other segments, and what follows them, as they were |
| JpegLaws.WhenWritten | crates/xmp-core/src/io/jpeg.rs:95-128 | a file is written to exactly when it starts like a JPEG file and the packet has at most 65504 bytes |
| JpegLaws.NamespaceName | crates/xmp-core/src/io/jpeg.rs:7 | the packet stands behind that name and a NUL byte |
| Registry.Inverse | crates/xmp-core/src/registry.rs:4-22 | the two lookups are inverses of each other |
| Packet.Parser.ResolvePrefix | crates/xmp-core/src/packet.rs:31-53 | gives the prefix the URI has, or the registered one, or the first free synthetic one, and keeps prefixes unambiguous |
| Packet.Parser.SyntheticPrefix | crates/xmp-core/src/packet.rs:42-52 | the search ends, with the first free number |
| Packet.TakenCount | crates/xmp-core/src/packet.rs:42-52 | the first n synthetic prefixes can only be taken if n prefixes are, which bounds the search |
| Packet.ResolvedNew | crates/xmp-core/src/packet.rs:31-53 | a URI seen before keeps its prefix, and a new URI gets a prefix that nothing uses |
| Packet.ResolvedSound | crates/xmp-core/src/packet.rs:31-53 | no two prefixes ever stand for one URI |
| Packet.Parser.HandleStart | crates/xmp-core/src/packet.rs:150-185 | attributes of a description, lists and items, in all branches |
| Packet.Parser.HandleEnd | crates/xmp-core/src/packet.rs:187-207 | closes items, lists and descriptions, in the order of the tests |
| Packet.Parse | crates/xmp-core/src/packet.rs:69-115 | the loop over events equals the fold of its steps, and gives nothing for malformed XML |
| PacketMeaning.ParsedShows | crates/xmp-core/src/packet.rs:69-207 | for every event stream, what is parsed shows exactly what the events say by URI |
| PacketMeaning.NamedAgrees | crates/xmp-core/src/packet.rs:31-53 | giving a URI a prefix changes nothing that is shown |
| PacketReading.DescriptionSays | crates/xmp-core/src/packet.rs:69-207 | whatever prefixes a description is written with, its attributes and lists are kept under the URIs in scope, of attributes and of lists the last one each, with the items in their order and the text of an item in one piece |
| PacketReading.NothingDescribed | crates/xmp-core/src/packet.rs:69-207 | a packet without a description, or a malformed one, gives nothing |
| PacketReading.DescriptionIff | crates/xmp-core/src/packet.rs:158-159 | a start tag opens a description exactly when it is named rdf:Description |
| PacketReading.ListIff | crates/xmp-core/src/packet.rs:174-180 | within a description a start tag opens a list exactly when it has a prefix in scope that is neither empty nor rdf |
| PacketReading.ItemIff | crates/xmp-core/src/packet.rs:181-184 | a start tag opens an item exactly when it is named li, within a description with the prefix rdf or none |
| PacketReading.TargetIff | crates/xmp-core/src/packet.rs:160-173 | an attribute is kept exactly when it has a prefix in scope that is neither empty nor rdf |
| PacketReading.ScopeMeans | crates/xmp-core/src/packet.rs:127-148 | a prefix stands for what the last declaration in a tag says, else for what it stood for around it |
| PacketReading.ScopeRestored | crates/xmp-core/src/packet.rs:78-113 | after properly nested elements the prefixes stand for what they stood for before |
| PacketReading.EmptyIsStartEnd | crates/xmp-core/src/packet.rs:85-96 | an empty element means what a start tag and an end tag mean |
| PacketReading.PredefinedReferences | crates/xmp-core/src/packet.rs:127-148 | the five predefined references |
| PacketReading.UnknownReference | crates/xmp-core/src/packet.rs:127-148 | any other reference that is not a number makes the value malformed |
| PacketReading.OpenReference | crates/xmp-core/src/packet.rs:127-148 | and so does one that does not end |
| PacketReading.ResolvedIs | crates/xmp-core/src/packet.rs:31-53 | a new URI gets its registered prefix, or the synthetic one with the smallest free number |
| PacketReading.RegisteredIff | crates/xmp-core/src/registry.rs:4-22 | the three registered prefixes and their URIs |
| PacketReading.TextEscapeIs | crates/xmp-core/src/packet.rs:223-227 | text is escaped character by character, the three of XML by their names |
| PacketReading.AttrEscapeIs | crates/xmp-core/src/packet.rs:216-221 | so are attribute values, and quotes besides |
| PacketWriting.UnescapeEscaped | crates/xmp-core/src/packet.rs:216-221 | every attribute value comes back from its escaped form |
| PacketWriting.QnameSplits | crates/xmp-core/src/packet.rs:209-214 | a qualified name splits at its first colon |
| PacketWriting.ReadAsIff | crates/xmp-core/src/packet.rs:69-101 | a text that is written and read back in pieces comes back as it was exactly when it has no references and no white space around it |
| PacketWriting.StandardTags | crates/xmp-core/src/packet.rs:229-293 | the element names of a packet are the ones that the parser looks for |
| PacketRoundTrip.SerializedShows | crates/xmp-core/src/packet.rs:69-293 | whatever packet with proper names is written, in whatever order, every attribute is read back, and exactly the lists that are not named li and do not come after a lost end tag, each item as its pieces between references |
| PacketRoundTrip.ParseOfSerialize | crates/xmp-core/src/packet.rs:69-293 | for names that are proper or have white space in them: parsing what was written shows what was to be written exactly when none has white space in it and all lists are heard and plain, or else there was nothing to show |
| PacketRoundTrip.LiIsLost | crates/xmp-core/src/packet.rs:69-293 | when every list has a URI, exactly when no name has white space in it, no list is named li and all items are plain |
| PacketRoundTrip.OneListSurvives | crates/xmp-core/src/packet.rs:97-193 | a packet with one list of a registered prefix survives exactly when the list is not named li and its items are plain |
| PacketRoundTrip.SpacedNameLost | crates/xmp-core/src/packet.rs:110-278 | a packet with a list whose name has white space in it is lost |
| PacketRoundTrip.SpacedLost | crates/xmp-core/src/packet.rs:110-278 | any packet with such a list is read back as the empty one |
| PacketRoundTrip.SpacedAttrLost | crates/xmp-core/src/packet.rs:135-250 | whatever packet is written, no attribute with white space in its name is read back |
| PacketRoundTrip.LateListLost | crates/xmp-core/src/packet.rs:187-207 | a packet in which the end tag of a list without a URI closes the description, so that the next list is lost |
| PacketMerge.ApplyMerges | crates/xmp-core/src/merge.rs:80-96 | the loop over merges, with replaced and with extended attributes |
| PacketMerge.MergesShow | crates/xmp-core/src/merge.rs:80-96 | merging the data merges the view by URI, for every prefix that has one |
| PacketMerge.ParsedTidy | crates/xmp-core/src/packet.rs:69-207 | of a packet whose names are proper everything parsed can be written again: no two prefixes have one URI, no list is named li, and items are plain if the texts are |
| PacketMerge.MergeReadsBack | crates/xmp-core/src/merge.rs:72-100 | parsing what a merge writes gives the old meaning with the merges made, exactly when it leaves no name with white space in it, no list named li and only plain items |
| PacketMerge.HarmlessLast | crates/xmp-core/src/merge.rs:72-100 | which is so whenever the texts of the old packet are plain and no merge brings anything else |
| PacketMerge.OrderExists | crates/xmp-core/src/packet.rs:229-293 | there is an order to write any packet in |
| PacketMerge.OthersUntouched | crates/xmp-core/src/merge.rs:80-96 | a namespace that no merge names is exactly as it was |
| MergeLock.Invariant | crates/xmp-core/src/merge.rs:32-100 | after every step the counts are the number of handles plus the registry's own, whoever is inside a lock took the last turn, and each file holds the merges written to it |
| MergeLock.OneLockPerPath | crates/xmp-core/src/merge.rs:32-44 | all live handles for a path are the registered lock, though locks are dropped, and critical sections exclude each other |
| MergeLock.NoLostUpdate | crates/xmp-core/src/merge.rs:72-100 | each file is the result of exactly the merges into it whose write succeeded, each once, in the order in which they acquired the lock |
| MergeLock.NeverStuck | crates/xmp-core/src/merge.rs:35-100 | while a merge is unfinished, some merge can take a step |
| MergeLock.ExamineKeepsLocks | crates/xmp-core/src/merge.rs:42 | dropping a lock that only the registry holds takes no lock from a live handle |
| MergeLockSweeps.ExaminedIff | crates/xmp-core/src/merge.rs:42 | in any run, a lock that is examined stays registered exactly when some merge has a handle of it |
| MergeLockSweeps.IdleLocksGo | crates/xmp-core/src/merge.rs:35-44 | whenever a merge leaves the registry, every other path that was not in use when it came has no lock registered any more |
| MergeLockSweeps.FindGives | crates/xmp-core/src/merge.rs:38-41 | the first merge of a path makes a new lock, and every other one gets the registered one |
| Blake2b.Blake2b128 | crates/yu-server/src/groups_index.rs:742-770 | the hand-written hash equals RFC 7693 for every input, the empty one and full blocks included |
| Blake2b.HashBlocks | crates/yu-server/src/groups_index.rs:755-765 | the loop takes the blocks with their byte counts, and flags only the last |
| Blake2b.Compress | crates/yu-server/src/groups_index.rs:772-822 | the compression of the arrays equals section 3.2 |
| Blake2b.RoundInPlace | crates/yu-server/src/groups_index.rs:809-818 | the eight in-place mixings are the columns and diagonals in order |
| Blake2b.MixInPlace | crates/yu-server/src/groups_index.rs:824-833 | the eight assignments are the mixing function of section 3.1 |
| Blake2b.MixBijective | crates/yu-server/src/groups_index.rs:824-833 | for fixed message words the mixing has an inverse, on both sides |
| Blake2b.RoundsBijective | crates/yu-server/src/groups_index.rs:809-818 | so have the twelve rounds |
| Blake2b.Schedule | crates/yu-server/src/groups_index.rs:784-797 | the twelve rows are the ten of the RFC, taken modulo ten |
| Blake2bReference.MixMeans | crates/yu-server/src/groups_index.rs:824-833 | mixing, with addition as arithmetic and exclusive or and rotations bit by bit: by 32, 24, 16 and 63 places |
| Blake2bReference.RoundMeans | crates/yu-server/src/groups_index.rs:809-818 | which words of the working vector and of the block each mixing of a round takes |
| Blake2bReference.WorkingMeans | crates/yu-server/src/groups_index.rs:798-808 | the working vector, bit by bit: the chain and the constants, with the counter and the flag |
| Blake2bReference.FedBackMeans | crates/yu-server/src/groups_index.rs:819-822 | each word of the chain with both halves of the working vector |
| Blake2bReference.InitialWords | crates/yu-server/src/groups_index.rs:743-752 | each initial word is the fraction of the square root of one of the first eight primes, to 64 bits |
| Blake2bReference.ParameterBytes | crates/yu-server/src/groups_index.rs:753-754 | a digest of 16 bytes, no key, a fanout and a depth of one |
| BlockHashing.LoopHashes | crates/yu-server/src/groups_index.rs:753-765 | a loop over offsets compresses max(1, n/128 rounded up) blocks as section 3.3 has it |
| BlockHashing.BlocksCover | crates/yu-server/src/groups_index.rs:753-765 | the blocks hold exactly the input, with zeros only after its end |
| Groups.BuildGroupsIndex | crates/yu-server/src/groups_index.rs:359-433 | paging by id, with any page size, ends and builds the index of one pass |
| Groups.PageStep | crates/yu-server/src/groups_index.rs:368-423 | after a full page less is left, and it is what comes after the page |
| Groups.GroupMaps.AppendGroup | crates/yu-server/src/groups_index.rs:558-582 | adds the id, keeps the first path and the larger time |
| Groups.BuildEntries | crates/yu-server/src/groups_index.rs:584-608 | keeps exactly the groups with enough members |
| GroupsLaws.IndexMeans | crates/yu-server/src/groups_index.rs:359-433 | a group is kept exactly when it has enough members, with its ids, the first eight again, and its true latest time |
| GroupsLaws.EachInOneGroup | crates/yu-server/src/groups_index.rs:378-420 | every live file is in exactly one group, the one of its path, and ids ascend |
| GroupsLaws.BuiltPasses | crates/yu-server/src/groups_index.rs:301-312 | the built index passes its own signature check exactly when the signature's time is not negative |
| GroupsLaws.OldFileFails | crates/yu-server/src/groups_index.rs:301-312 | a table with one live row of a negative time, whose index fails its own check |
| GroupsLaws.NoNegativeTimes | crates/yu-server/src/groups_index.rs:435-444 | which it is not when no live file has a negative time |
| GroupsLaws.GroupsIndexCache.Get | crates/yu-server/src/groups_index.rs:293-339 | memory, then the checked file, then a rebuild that is stored in both |
| GroupsLaws.GroupsIndexCache.Invalidate | crates/yu-server/src/groups_index.rs:341-346 | empties memory, and the file if it can be removed |
| GroupsLaws.GivenOut | crates/yu-server/src/groups_index.rs:293-346 | over every run of table changes, calls and invalidations, what is given out was built from a table there has been since the last invalidation, or was in the file that this left and has the signature of such a table |
| GroupsLaws.SameUntilDropped | crates/yu-server/src/groups_index.rs:293-339 | over every run without an invalidation, whatever becomes of the table, the index once given out is given out again |
| GroupsLaws.AfterRestart | crates/yu-server/src/groups_index.rs:293-323 | after a restart the index in the file is given out exactly as long as the table has its signature |
| GroupsLaws.StaleIndexGivenOut | crates/yu-server/src/groups_index.rs:293-339 | asked over an empty table, and again after a row was added, the cache gives an index that is not the one of the table |
| GroupsLaws.OtherVersionUnused | crates/yu-server/src/groups_index.rs:293-323 | a file of another version than the fourth is never used |
| GroupPaths.ArchiveWithMembers | crates/yu-server/src/groups_index.rs:547-682 | an archive is grouped with its members |
| GroupPaths.ArchiveInOneEntry | crates/yu-server/src/groups_index.rs:359-433 | in the index of a table, grouped by container, an archive and each of its members are in one entry |
| GroupPaths.FindsFirst | crates/yu-server/src/groups_index.rs:670-682 | the search finds the first occurrence, whatever the case of letters |
| GroupFolders.InFolder | crates/yu-server/src/groups_index.rs:378-420 | a file in a directory is in the group of that directory, with either separator |
| GroupFolders.InNoFolder | crates/yu-server/src/groups_index.rs:641-647 | a file without a directory, or in the root, is in the group of the current one |
| GroupFolders.FolderEntry | crates/yu-server/src/groups_index.rs:359-433 | two live files in one directory are in one entry of the index, the one of that directory |
| GroupFolders.FoldersApart | crates/yu-server/src/groups_index.rs:359-433 | files in directories whose names differ by more than case are in no entry together |
| GroupFolders.MemberIff | crates/yu-server/src/groups_index.rs:657-663 | a member is a path with an archive extension and a separator in it, neither at its beginning nor at its end |
| GroupFolders.MemberGroup | crates/yu-server/src/groups_index.rs:547-556 | it is in the group of the archive that ends at the first of these |
| GroupFolders.ArchiveFileIff | crates/yu-server/src/groups_index.rs:665-668 | an archive file is one whose name ends in one of the extensions, whatever the case |
| Braces.FindMatchingBraceChar | crates/yu-server/src/prompt_sim_core.rs:707-722 | the loop finds the brace at which the depth first comes back to zero |
| Braces.SplitTopLevelPipe | crates/yu-server/src/prompt_sim_core.rs:724-746 | the loop splits at the bars at depth zero |
| Braces.ExpandBraceChoices | crates/yu-server/src/prompt_sim_core.rs:748-765 | the loop expands every matched group, drawing numbers in order |
| Braces.ResolveBraceChoice | crates/yu-server/src/prompt_sim_core.rs:767-774 | keeps the braces of a group without a bar, and otherwise expands the trimmed part that is drawn; the recursion ends |
| BraceLaws.JoinOfSplit | crates/yu-server/src/prompt_sim_core.rs:724-746 | joining the parts with bars gives the text back, and the parts of a balanced text are balanced and have no bar of their own |
| BraceLaws.SplitOfJoin | crates/yu-server/src/prompt_sim_core.rs:724-746 | splitting joined parts gives the parts back |
| BraceLaws.ExpandKeepsDepth | crates/yu-server/src/prompt_sim_core.rs:748-774 | expansion never changes which braces outside it are matched |
| BraceLaws.ExpandAddsNoBar | crates/yu-server/src/prompt_sim_core.rs:748-774 | expansion puts no bar where it could be taken for a choice |
| BraceLaws.ExpandSettles | crates/yu-server/src/prompt_sim_core.rs:748-774 | whatever is drawn, no choice is left in the result |
| BraceLaws.SettledIsFixed | crates/yu-server/src/prompt_sim_core.rs:748-774 | a prompt without a choice is returned as it is, without a draw; any other one gets shorter |
| BraceLaws.ExpandTwice | crates/yu-server/src/prompt_sim_core.rs:748-774 | expanding again with any other random numbers changes nothing |
| BraceLaws.ChangedIffChoice | crates/yu-server/src/prompt_sim_core.rs:748-774 | a prompt is left unchanged exactly when it has no choice, and never gets longer |
| BraceLaws.NoBarUnchanged | crates/yu-server/src/prompt_sim_core.rs:748-774 | a prompt without a bar is returned as it is |
| BraceOutcomes.Reachable | crates/yu-server/src/prompt_sim_core.rs:748-774 | the results over all random numbers are exactly the compositional outcomes of the prompt |
| BraceOutcomes.OutcomeHasDraws | crates/yu-server/src/prompt_sim_core.rs:748-774 | for each outcome there are draws that lead to it |
| BraceMeaning.TrimIff | crates/yu-server/src/prompt_sim_core.rs:767-774 | trimming takes away the white space on both sides, all of it and nothing else |
| BraceMeaning.SpacesAre | crates/yu-server/src/prompt_sim_core.rs:767-774 | the 25 characters of white space |
| BraceMeaning.GroupFirst | crates/yu-server/src/prompt_sim_core.rs:748-765 | the outcomes of a text that starts with a group: one of the group, and one of the rest |
| BraceMeaning.ChoiceOutcomes | crates/yu-server/src/prompt_sim_core.rs:767-774 | the outcomes of a choice: those of any one part, without the white space around it |
| BraceMeaning.EmphasisOutcomes | crates/yu-server/src/prompt_sim_core.rs:767-774 | the outcomes of emphasis: those of its inside, in braces |
| BraceMeaning.DrawnPart | crates/yu-server/src/prompt_sim_core.rs:767-774 | the number that is drawn says which part it is |
| BraceMeaning.DrawsInOrder | crates/yu-server/src/prompt_sim_core.rs:748-774 | groups draw from left to right |
| BraceAnalysis.FindMatchingBrace | crates/yu-server/src/prompt_sim_core.rs:1017-1032 | the saturating matcher finds the brace that the other matcher finds |
| BraceAnalysis.SplitTopLevel | crates/yu-server/src/prompt_sim_core.rs:1034-1056 | the saturating splitter against its definition |
| BraceAnalysis.SplittersAgree | crates/yu-server/src/prompt_sim_core.rs:1034-1056 | the two splitters give the same parts exactly when every bar is at depth zero for both or for neither; so whenever the depth never goes below zero |
| BraceAnalysis.SplittersDiffer | crates/yu-server/src/prompt_sim_core.rs:1034-1056 | two texts, one for each of the splitters, in which only that one sees the bar |
| BraceAnalysis.FindChoices | crates/yu-server/src/prompt_sim_core.rs:1179-1195 | the loop over a text lists the choices of its groups, outermost first |
| BraceAnalysis.AnalyzeOne | crates/yu-server/src/prompt_sim_core.rs:1058-1176 | one group and the choices within its parts |
| BraceAnalysis.Entry | crates/yu-server/src/prompt_sim_core.rs:1058-1176 | the branches for a pick count, for weights that are not all one, and for neither; nothing for a pick without choices or a group without a bar |
| BraceAnalysis.ChoicesSound | crates/yu-server/src/prompt_sim_core.rs:1058-1195 | every reported expression is a group in braces: its choices joined by bars, the same with a weight in front of each, or a pick count and text whose pieces that are not blank are the choices; and it occurs in the prompt |
| BraceAnalysis.JoinedIffUniform | crates/yu-server/src/prompt_sim_core.rs:1058-1195 | it is its choices joined by bars in braces exactly when it has neither count nor weights |
| BraceAnalysis.WeightedNotJoined | crates/yu-server/src/prompt_sim_core.rs:1120-1176 | a choice between texts with weights 2 and 3, whose expression is not its choices joined |
| BraceAnalysis.ReportsOuterChoices | crates/yu-server/src/prompt_sim_core.rs:1058-1195 | nothing is reported exactly when every outermost group is passed over: a pick from bars and white space only, or a group without count and bar |
| BraceAnalysis.SettledReports | crates/yu-server/src/prompt_sim_core.rs:1058-1195 | about a prompt that expansion leaves unchanged something is reported exactly when an outermost group has a pick count and something to pick from; never without a dollar sign |
| BraceAnalysis.PickUnexpanded | crates/yu-server/src/prompt_sim_core.rs:1058-1112 | a pick from text without a bar is reported though expansion leaves it unchanged |
| BraceAnalysis.BlankPickUnreported | crates/yu-server/src/prompt_sim_core.rs:1058-1082 | a pick from bars and white space is not reported though expansion changes it |
| ChoiceMarks.PickHasDollar | crates/yu-server/src/prompt_sim_core.rs:984-987 | only text that starts with a digit and has a dollar sign has a pick count |
| ChoicePatterns.PickIff | crates/yu-server/src/prompt_sim_core.rs:984-988 | text has a pick count exactly when it matches the pattern, and the counts and the rest are its groups |
| ChoicePatterns.WeightIff | crates/yu-server/src/prompt_sim_core.rs:978-981 | a part has a weight exactly when it matches the pattern and the number can be read |
| BraceReports.ReportIff | crates/yu-server/src/prompt_sim_core.rs:1058-1176 | what a group is reported as, by these patterns: a pick with its pieces, trimmed, that are not blank; parts with weights, if not all are one; or the parts |
| BraceReports.ListedIff | crates/yu-server/src/prompt_sim_core.rs:1058-1195 | a choice is listed exactly when an outermost group is reported as it, or one of the texts of what such a group is reported as has it |
| BraceAnalysis.EmphasisHidesChoice | crates/yu-server/src/prompt_sim_core.rs:1115-1118 | a choice inside emphasis goes unreported though expansion makes it |
| Combinations.CombSat | crates/yu-server/src/prompt_sim_core.rs:1007-1015 | never above the binomial coefficient, and equal to it exactly when the largest product does not saturate |
| Combinations.HalfSaturates | crates/yu-server/src/prompt_sim_core.rs:1007-1015 | choosing half of 128 or more saturates |
| Combinations.Absorption | crates/yu-server/src/prompt_sim_core.rs:1007-1015 | every division of the fold is exact |
| WorkSteal.Conserved | crates/yu-server/src/work_steal.rs:31-66 | at every step the queue is the rest of the input, and each item taken is in one batch of one worker; every batch, finished, at hand or lost in a panic, has at most max(1, batch size) items |
| WorkSteal.Outcome | crates/yu-server/src/work_steal.rs:67-75 | without a panic the count is that of the prefix handed out; without cancelling, that of the whole input |
| WorkSteal.Bounded | crates/yu-server/src/work_steal.rs:45-66 | however the workers interleave, they take a bounded number of steps |
| WorkSteal.Finishes | crates/yu-server/src/work_steal.rs:45-66 | from wherever it stands, a run can go on until every worker has stopped |
| WorkSteal.StepKeeps | crates/yu-server/src/work_steal.rs:45-66 | what every single step keeps |
| WorkStealRuns.EachHasItsOwn | crates/yu-server/src/work_steal.rs:31-66 | what a worker has run or lost is what it took, in that order, and all took the front of the input |
| WorkStealRuns.AfterCancel | crates/yu-server/src/work_steal.rs:45-66 | once the run is cancelled a worker takes one item more at most, and none if it has yet to look |
| WorkStealRuns.OnlyIfAsked | crates/yu-server/src/work_steal.rs:31-66 | over every run, the run is cancelled exactly if someone has asked for it, and a worker is lost exactly if its batch panicked |
| WorkStealRuns.BatchesFull | crates/yu-server/src/work_steal.rs:45-66 | so long as there is more to take, every batch is full |
| Supervisor.NoOrphan | crates/yu-server/src/infer_manager.rs:160-249 | when shutdown and the supervisor are done, every process ever spawned is dead |
| Supervisor.OneChild | crates/yu-server/src/infer_manager.rs:99-249 | at every moment at most one process lives: the installed one, or the one in flight to replace it |
| Supervisor.StepSealed | crates/yu-server/src/main.rs:3444-3459 | once shutdown has terminated the installed child, no other one is installed |
| Supervisor.SupervisorReturns | crates/yu-server/src/infer_manager.rs:160-249 | once the flag is set the supervisor takes at most twice the attempts plus seven steps |
| Supervisor.NeverStuck | crates/yu-server/src/infer_manager.rs:160-249 | the supervisor and shutdown never wait for each other forever |
| SupervisorRuns.InstalledWasHealthy | crates/yu-server/src/infer_manager.rs:99-157 | over every run, a process that has replaced the first one was reported healthy while it was waited for |
| SupervisorRuns.UnhealthyDies | crates/yu-server/src/infer_manager.rs:124-134 | a process that was reported unhealthy is dead from then on, and never installed |
| SupervisorRuns.LeftAlone | crates/yu-server/src/infer_manager.rs:160-249 | while the first process lives and shutdown is not asked for, nothing is spawned or killed |
| SupervisorRuns.Replaces | crates/yu-server/src/infer_manager.rs:160-249 | from every state of a run in which the installed process is dead and shutdown is not asked for, the supervisor can get to one with a living process that was reported healthy |
| SupervisorRuns.GivesUpLast | crates/yu-server/src/infer_manager.rs:99-157 | it gives up exactly when the last of the allowed attempts has failed |
| TagStore.Store.ReplaceMetaTagsIfChanged | crates/tagdb-core/src/import/persist.rs:384-433 | the short circuit, the empty branch, the deletion of stale rows and the clearing of all leave one final table |
| TagStore.Store.InsertFileTag | crates/tagdb-core/src/import/persist.rs:475-507 | the upsert takes over the weight, and replaces a source only for the user |
| TagStore.Store.ClearTagsForFile | crates/tagdb-core/src/import/persist.rs:509-520 | removes the rows of a file and a source, and no other |
| TagStore.Store.UpsertTag | crates/tagdb-core/src/import/persist.rs:435-473 | one id for each name, with the earliest time it was seen |
| TagStore.Store.BuildMetaRows | crates/tagdb-core/src/import/persist.rs:369-382 | one row for each parsed name, by tag id, with the weight it was last given |
| TagStore.WrittenIsFinal | crates/tagdb-core/src/import/persist.rs:410-430 | clearing only stale rows and clearing all rows come to the same |
| TagStore.UnchangedIsFinal | crates/tagdb-core/src/import/persist.rs:389-402 | when the weights are the same, nothing is to be done |
| TagStore.FinalMeans | crates/tagdb-core/src/import/persist.rs:384-433 | stale rows are gone, incoming weights are set, no row of another file or source is lost or changes its source, and none that is not incoming changes at all |
| TagStore.FinalTwice | crates/tagdb-core/src/import/persist.rs:384-433 | repeating the call changes nothing |
| TagStore.FinalUnique | crates/tagdb-core/src/import/persist.rs:384-433 | there is one final table |
| TagStore.ImportedWeights | crates/tagdb-core/src/import/persist.rs:369-433 | after an import each row of the metadata has the weight last parsed for its name |
| TagStore.UpsertedMean | crates/tagdb-core/src/import/persist.rs:475-507 | however many rows are written for a key, its weight is the last one, and no import takes a source from the user |
| TagStore.SeenIsEarliest | crates/tagdb-core/src/import/persist.rs:435-473 | what is kept for a tag is the earliest of the times that are known |
| Watcher.FlushLoop.ProcessEvent | crates/yu-server/src/watcher.rs:231-268 | the loop over the paths of an event; a modification does not hide a pending creation |
| Watcher.FlushLoop.FlushBatch | crates/yu-server/src/watcher.rs:270-376 | takes any 200 of the pending paths, or all, changes exactly the rows of those under a root, and counts each kind of item |
| Watcher.FlushLoop.FlushOne | crates/yu-server/src/watcher.rs:293-357 | one item: its row, its tally, and no other row |
| Watcher.FlushLoop.UpsertFile | crates/tagdb-core/src/db/file.rs:43-73 | the row gets the file's time and size, lives again, and keeps its other columns |
| Watcher.FlushLoop.MarkDeleted | crates/tagdb-core/src/db/file.rs:75-82 | the row is marked, and whether it was live is told |
| Watcher.Drained | crates/yu-server/src/watcher.rs:277-286 | without new events a backlog of n paths is gone after n/200 flushes, rounded up |
| Watcher.TallyMeans | crates/yu-server/src/watcher.rs:293-376 | each kind of item that a flush takes is counted once: creations and modifications of files that are there, and removals of rows that were live |
| Watcher.GatheredMeans | crates/yu-server/src/watcher.rs:231-268 | what is pending about a path after an event: a creation outlasts modifications, and nothing else lasts |
| WatcherKeeps.KeepsColumns | crates/tagdb-core/src/db/file.rs:43-82 | no run takes a row out of the table or touches its other columns |
| WatcherKeeps.MetaWasSeen | crates/yu-server/src/watcher.rs:181-376 | a row has the time and size it had, or those its file had at some moment of the run |
| WatcherKeeps.OutsideUntouched | crates/yu-server/src/watcher.rs:293-310 | a path outside the roots has the row it had |
| WatcherRuns.Converges | crates/yu-server/src/watcher.rs:181-376 | from any state, when nothing is outstanding any more, a watched row agrees with its file, if the last change was reported for what it was |
| WatcherRuns.RenamedAwayStays | crates/yu-server/src/watcher.rs:231-268 | a file renamed away keeps its live row |
| WatcherRuns.AgreesIff | crates/yu-server/src/watcher.rs:181-376 | over every run, the row agrees at the end exactly when the last change was not reported as a removal and the file is there, or it was, or the row was dead before that report was flushed, and the file is gone |
| WatcherRuns.ChangeAgreesIff | crates/yu-server/src/watcher.rs:181-376 | for a change made while nothing about its path is outstanding, exactly which kinds, files and rows come to agree, kinds that report nothing included |
| WatcherRuns.Settles | crates/yu-server/src/watcher.rs:231-376 | from any state, the row is last flushed with what was last reported, and stays if nothing was |
| ApiKeyLimit.RateLimiter.CheckRateLimit | crates/yu-server/src/auth/apikey.rs:105-116 | prunes, refuses when 120 are left, and otherwise records |
| ApiKeyLimit.AtMost120 | crates/yu-server/src/auth/apikey.rs:105-116 | over any run, any half-open 60 seconds hold at most 120 accepted calls of a key |
| ApiKeyLimit.RefusedOnlyWhenFull | crates/yu-server/src/auth/apikey.rs:105-116 | a call is refused only when 120 were accepted in the 60 seconds up to it |
| PinLimit.PinRateLimiter.RecordFailure | crates/yu-server/src/auth/rate.rs:25-38 | counts in the window, or starts a new one |
| PinLimit.PinRateLimiter.IsLockedOut | crates/yu-server/src/auth/rate.rs:41-50 | five failures in a window that has not run out |
| PinLimit.PinRateLimiter.Attempt | crates/yu-server/src/auth/routes.rs:102-136 | asks first, then clears or records |
| PinLimit.AtMostNine | crates/yu-server/src/auth/rate.rs:25-56 | over any run, any half-open 60 seconds hold at most nine failures of an address between resets |
| PinLimit.NineReached | crates/yu-server/src/auth/rate.rs:25-56 | nine is reached, so the bound is the best one |
| PinLimit.LockedOnlyAfterFive | crates/yu-server/src/auth/rate.rs:41-50 | an address is locked out only after five failures in the last 60 seconds |
| Base64Url.DecodeOfEncode | crates/yu-server/src/secret_store.rs:371-379 | decoding undoes encoding for all bytes |
| Base64Url.EncodeOfDecode | crates/yu-server/src/secret_store.rs:432-440 | encoding undoes decoding, so every text has one reading |
| Base64Url.GroupIs | crates/yu-server/src/secret_store.rs:371-379 | three bytes are one number of 24 bits, written in four letters of the alphabet of RFC 4648, section 5 |
| Base64Url.LastGroupIs | crates/yu-server/src/secret_store.rs:371-379 | and one or two bytes at the end in two or three, with padding |
| SecretStore.EncryptFernet | crates/yu-server/src/secret_store.rs:442-470 | the appended buffers are version, time, vector, ciphertext and signature |
| SecretStore.DecryptOfEncrypt | crates/yu-server/src/secret_store.rs:442-499 | a token can be opened with its key, through both layers of base64 |
| SecretStore.OpenedIsSigned | crates/yu-server/src/secret_store.rs:472-499 | only bytes that are signed with the key are opened |
| SecretFormats.EncryptedIs | crates/yu-server/src/secret_store.rs:442-470 | a token is version 128, the time in eight bytes, the vector, the ciphertext under the second half of the key, and the signature of these under the first |
| SecretFormats.DecryptedIff | crates/yu-server/src/secret_store.rs:472-499 | a token gives a plaintext exactly when it is the base64 of such bytes, whatever their time is |
| SecretFormats.OnlyKeys | crates/yu-server/src/secret_store.rs:432-445 | nothing is encrypted or decrypted with what is not the base64 of 32 bytes |
| SecretStore.Store.ActiveKeyWithId | crates/yu-server/src/secret_store.rs:382-393 | the active key, or the primary key made active under a new id |
| SecretStore.Store.SaveKeyring | crates/yu-server/src/secret_store.rs:400-420 | adds the key under its id and makes it active |
| SecretStore.Store.GenerateNewActiveKey | crates/yu-server/src/secret_store.rs:371-380 | a rotation saves a new key and keeps the others |
| SecretStore.Store.ImportKey | crates/yu-server/src/secret_store.rs:303-310 | an import writes the key file and leaves the keyring and the active key alone |
| SecretStore.Store.Encrypt | crates/yu-server/src/secret_store.rs:42-58 | the new format, the old one, or the plaintext, in this order |
| SecretStore.Store.Decrypt | crates/yu-server/src/secret_store.rs:23-40 | reads both formats, and gives nothing for what it cannot read |
| SecretFormats.StoredAsItIs | crates/yu-server/src/secret_store.rs:42-45 | what is empty or has the prefix already is stored as it is |
| SecretFormats.StoredIs | crates/yu-server/src/secret_store.rs:46-58 | anything else in the new format, in the old one, or in the clear, each only if the one before it fails |
| SecretFormats.PlainReads | crates/yu-server/src/secret_store.rs:23-26 | what has no prefix is given back |
| SecretFormats.IssuedReadsAs | crates/yu-server/src/secret_store.rs:27-34 | a value with a key id is read with that key alone, and as empty without it |
| SecretFormats.OldReadsAs | crates/yu-server/src/secret_store.rs:35-40 | and one without with the primary key alone |
| SecretFormats.NamedIsActive | crates/yu-server/src/secret_store.rs:382-388 | the key that the keyring names as active is taken |
| SecretFormats.PrimaryBecomesActive | crates/yu-server/src/secret_store.rs:382-393 | without one that can be read the primary key is, and is saved as the active one |
| SecretFormats.SavedIs | crates/yu-server/src/secret_store.rs:400-420 | a saved key can be looked up by its id and is the active one, and the other keys stay |
| SecretFormats.PrimaryIs | crates/yu-server/src/secret_store.rs:140-146 | the key of the passphrase comes before that of the file |
| SecretStore.ReadIssued | crates/yu-server/src/secret_store.rs:27-34 | an issued value is read with the key of its id |
| SecretStore.RunGrows | crates/yu-server/src/secret_store.rs:382-420 | no run takes a key out of the keyring |
| SecretStore.AlwaysReadable | crates/yu-server/src/secret_store.rs:23-58 | after any run of encryptions, rotations, imports and exports every value issued with a key id gives its plaintext |
| SecretStore.NewFormat | crates/yu-server/src/secret_store.rs:42-52 | encryption gives that format whenever the active key is a Fernet key |
| SecretStore.NewAfterRotation | crates/yu-server/src/secret_store.rs:42-58 | once a key has been rotated in, every later value of a run is issued with a key id, whatever is imported |
| SecretStore.OldReadableIff | crates/yu-server/src/secret_store.rs:23-58 | over every run, a value in the old format gives its plaintext exactly when the primary key is the one it was issued under: with a passphrase, without an import since, or when the last import brought the same key |
| SecretStore.OtherKey | crates/yu-server/src/secret_store.rs:472-499 | with another key a token does not give its plaintext, and nothing at all if that key signs otherwise |
| SecretStore.OldLost | crates/yu-server/src/secret_store.rs:260-318 | a keyring without an active key, a value issued in the old format, and another key imported: the value reads as empty |
| SecretStore.OldLostOnce | crates/yu-server/src/secret_store.rs:260-318 | the same with every value given |

## Left out

- Files and their errors: methods take the bytes of a file and give the bytes to be written; temporary files, renames and permissions are not modelled.
- Text: a packet is a byte string, so decoding to UTF-8 with replacement characters is not modelled; the PNG extractor takes its two decoders as parameters.
- PngLaws.ReadAfterWrite: requires that the length of the new chunk fits its field, which the source truncates; the same holds for the other laws of the PNG write.
- Jpeg.ReadXmp: requires that the walker reaches no APP1 segment with a length below two, where the source's slice would panic.
- PacketMerge.MergeReadsBack: requires names that consist of white space and of characters other than `=`, `/`, `<`, `>` and quotes, list names that do not end in white space, items and texts without line ends that XML normalises, an old packet whose names are proper, and merges into prefixes that the packet declares or that are registered, because other names can end the tag they are in and a prefix without a URI is not declared. `PacketRoundTrip.ParseOfSerialize` and the lemmas beside it require the same of names and items, and prefixes that can start a tag.
- The XML library: the parser reads events, and the writer is modelled by the events of its output in any order of the map keys; indentation, the packet wrapper and numeric character references (a parameter) are the library's.
- MergeLock: symbolic links, and a lock poisoned by a panic.
- The groups index: labels of groups, the order of groups in the JSON, thumbnails, and times that are not exact as reals.
- BraceAnalysis.FindChoices: which characters beyond ASCII are digits and which numbers digits stand for are parameters; probabilities and the numbers of combinations in the entries are not modelled, and positions count characters instead of bytes.
- Wildcards and the conversion between prompt dialects: regular expressions.
- WorkSteal.Outcome: speaks of runs without a panicking batch; with one, its items are neither counted nor handed out again, as WorkSteal.Conserved says.
- Supervisor.NoOrphan: a terminated process is taken to be dead, reuse of process ids is not modelled, and neither is a runtime that is dropped while the supervisor is still at work.
- SQL: tables are maps with the stated effect of each statement; failing statements end a call and are not modelled. Weights are reals.
- The watcher: debouncing and waiting for scans only delay flushes, which the runs allow at any time; database errors are not modelled.
- PinLimit.AtMostNine: requests are taken one after the other; two requests that overlap may both pass the check before either records its failure. Times are exact nanoseconds and do not go back.
- ApiKeyLimit.AtMost120: the clock is read before the lock is taken; calls are taken in the order of their times.
- SecretStore.OldReadableIff: assumes that no other key verifies what a key has signed or decrypts what it has encrypted (`KeysMatter`), which `SecretStore.ToyWorks` shows to be satisfiable beside what else is assumed.
- SecretStore.AlwaysReadable: new key ids are fresh and writes succeed; AES, HMAC and key derivation are parameters.
