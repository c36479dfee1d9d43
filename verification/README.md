# A model of truss: containers, sizes, orientations and text scanners

truss is an image pipeline. This project models the parts of its shared Rust core that work on bytes,
integers and rationals, and the one-edit key matcher of its JavaScript URL signer, and proves
properties of them for all inputs. `dafny verify dfyconfig.toml` checks everything.

**How it is organised.** A component is a module. Code that walks or builds bytes with offsets and
buffers is a `method` with the source's loops; its `ensures` equates the result with a specification
function, and the lemmas say what that function means. Specification functions read a file as a list
(chunks, items, blocks, tokens), and a printer on the same list is their partner: reading is proved to
invert printing, and every rewriter is read off by parsing its output again. What a file says is stated on
the printer's side, with names, codes, fields and limits spelled out there and not taken from the code, so
that a constant or a field order cannot be wrong on both sides at once.

| part | files |
|---|---|
| shared vocabulary | `wrappers`, `arithmetic`, `bytes`, `layout`, `selection`, `media_type`, `metadata_policy` |
| WebP: parser, its grammar, injector, stripper, sniffer, then its printed fields and policy table | `webp_container`, `webp_grammar`, `webp_flags`, `webp_metadata`, `webp_strip`, `webp_sniffer`, `webp_fields`, `webp_policy` |
| PNG: chunk list and stripper, sniffer, CRC and the code it is, injector, then its printed fields and policy table | `png_chunks`, `png_sniffer`, `png_crc`, `png_crc_code`, `png_inject`, `png_fields` |
| JPEG: lossless rewriter, sniffer, injectors, then the grammar, the policy table, the frame header and the packets | `jpeg_segments`, `jpeg_sniffer`, `jpeg_inject`, `jpeg_grammar`, `jpeg_policy`, `jpeg_frame`, `jpeg_packets` |
| handing the input back | `passthrough` |
| quality search, and when it is exact | `quality_search`, `quality_path` |
| sizes, what each request gets, aspect ratio, placement, orientation, the stages in order | `resize_geometry`, `resize_request`, `resize_aspect`, `placement`, `orientation`, `pixel_stages` |
| SVG prolog and root tag | `svg_text`, `svg_prolog`, `svg_scanner`, `svg_root_tag`, `svg_root_reader` |
| GIF blocks | `gif` |
| numbers and crops as text, key suggestions | `wide_integer`, `crop_region`, `edit_distance` |

**Modelling choices.**
Bytes are integers from 0 to 255. A `u16` or `u32` is a natural number; writing one keeps its low bits, as
`as u32` does, and saturating additions and subtractions are written out. A `Vec<u8>` that a function
extends through a mutable reference is the class `Bytes.ByteVec`. `usize` is unbounded: where the source
refuses an overflowing sum it also refuses a sum past the file's end, so the two branches give one
answer. Ratios in the geometry are exact and rounding is any function to an integer within one half, so
no result depends on how ties are rounded. Error values keep their class and lose their wording.
Foreign code (encoders, the score of a probe, the EXIF orientation reader, `toLowerCase`) is a parameter.

**Where the code does less than its documentation or its name says**, the model follows the code, and a
lemma gives the exact condition:
- `WebpMetadata.InjectAgreement`: the injector sets flags only for payloads it adds, so a flag that was
  wrong before is wrong after; `WebpMetadata.FalseExifStaysFalse` is such a file.
- `WebpSniffer.InjectKeepsFacts`: a simple file with a stray `ALPH` chunk gains alpha;
  `WebpSniffer.StrayAlphaGainsAlpha` is such a file. A file whose extended header stands behind its bitstream
  reports that header only after an injection (`WebpSniffer.LateHeaderTakesOver`); `WebpSniffer.InjectedSniff`
  says for every file what is reported then.
- `PngSniffer.ReturnsIffCountsPresent`: the ancillary walk indexes a frame count without looking whether it
  is there; `PngSniffer.CutFilePanics` are 41-byte files on which that ends in a panic.
- `PngInject.DeclaredLength`: the length field of the inserted chunk is not checked against 32 bits.
- `QualitySearch.ShortfallCanMissAQuality`: a shortfall does not mean that no quality reaches the target;
  `QualityPath.ShortfallIffTopPathMisses` says exactly when the answer is one, and when it hides a quality.
  `QualityPath.FindsLeastIffPathClear` says exactly which midpoints have to reach it for the search to find
  the least quality that does; `QualitySearch.StuckAtCeiling`: the loop needs a cap below 255;
  `QualityPath.CeilingEndsIff` says exactly when it ends at 255.
- `WideIntegers.OthersAreRefused`: text that is no integer is read as one past the range when its leading
  digits already are; `WideIntegers.OverlongTextIsMisread` is such a text.
- `EditDistance.ExactIffAtMostOne`: the pass decides the edit distance for the limits 0 and 1 only; the
  source calls it with 1.

## Model

| member | source | states |
|---|---|---|
| `WebpContainer.ParseWebpChunks` | src/codecs/raster.rs:2366-2399 | the parser succeeds exactly on a RIFF/WEBP header followed by chunks that all fit the file, and its ranges hold exactly those chunks |
| `WebpContainer.PushWebpChunk` | src/codecs/raster.rs:2433-2440 | appends one printed chunk to the buffer, padded to an even length, and changes nothing before it |
| `WebpContainer.ParseContainerEncoded` | src/codecs/raster.rs:2366-2440 | round trip: any printed chunk list parses back to itself |
| `WebpGrammar.ParsesIffWebpFile` | src/codecs/raster.rs:2366-2399 | a file parses to a chunk list if and only if it is RIFF, any four bytes, WEBP, those chunks with pad bytes of any value (the last one may be missing at the end of the file), and fewer than eight bytes more |
| `WebpGrammar.PrintedWithZeroPads` | src/codecs/raster.rs:2433-2440 | the printer writes these files with a zero byte behind every odd payload, the last one too |
| `WebpContainer.ReencodedLength` | src/codecs/raster.rs:2366-2440 | printing what was parsed adds at most the one pad byte the file left off |
| `WebpContainer.RiffSize` | src/codecs/raster.rs:2540-2558 | the size field is the length minus 8 if and only if that fits 32 bits |
| `WebpFlags.FlagAfterSet` | src/codecs/raster.rs:2505-2513 | setting a flag bit sets that bit and no other |
| `WebpFlags.FlagAfterClear` | src/codecs/raster.rs:1367-1425 | clearing a list of flag bits clears exactly those |
| `WebpFields.FlagsSpelled` | src/codecs/raster.rs:1375-1400 | the five flags are the bits worth 32, 16, 8, 4 and 2 |
| `WebpMetadata.WebpCanvasInfo` | src/codecs/raster.rs:2405-2430 | the canvas of the first bitstream chunk with a readable header, an error when there is none |
| `WebpMetadata.InjectWebpMetadata` | src/codecs/raster.rs:2458-2558 | the buffer-building injector computes the injection specified on the chunk list, errors included |
| `WebpMetadata.WriteBody` | src/codecs/raster.rs:2515-2545 | the body is extended header, profile, picture chunks, EXIF, XMP, in that order |
| `WebpMetadata.InjectParses` | src/codecs/raster.rs:2458-2558 | an injection that adds anything parses back to exactly header, profile, picture chunks in original order with original payloads, EXIF, XMP; payloads the file carried win; the size field is honest |
| `WebpMetadata.InjectNothing` | src/codecs/raster.rs:2458-2482 | with no payload given any bytes come back unchanged, and with nothing to add a file does |
| `WebpMetadata.InjectAgreement` | src/codecs/raster.rs:2484-2513 | a metadata flag agrees with its chunk afterwards if and only if its payload was added or it agreed before; truthful flags stay truthful; the animation flag, and the alpha flag of an existing header, are kept |
| `WebpMetadata.FalseExifStaysFalse` | src/codecs/raster.rs:2484-2513 | a header that advertises a missing EXIF chunk still does so after a profile is injected |
| `WebpStrip.RemovedInStep` | src/codecs/raster.rs:1367-1400 | the chunks a policy drops and the flags it clears are the same kinds |
| `WebpStrip.WebpBytesSatisfyingMetadataPolicy` | src/codecs/raster.rs:1367-1425 | the loop computes the stripping specified on the chunk list, and gives up where that does |
| `WebpStrip.StripRemovesExactly` | src/codecs/raster.rs:1367-1425 | exactly the chunks the policy names go; the rest keep order and payloads up to cleared flag bits; truthful flags stay truthful |
| `WebpStrip.StripIdempotent` | src/codecs/raster.rs:1367-1425 | stripping twice is stripping once |
| `WebpStrip.StripNeverGrows` | src/codecs/raster.rs:1367-1425 | never longer, and at least seven bytes shorter when a chunk went, although re-padding may add one |
| `WebpStrip.StripAfterInject` | src/codecs/raster.rs:1367-2558 | stripping everything after an injection leaves the bare header and the file's picture chunks, byte for byte the printed container |
| `WebpStrip.StripUndoesInject` | src/codecs/raster.rs:1367-2558 | on a canonical metadata-free extended container, strip after inject is the identity on bytes |
| `WebpPolicies.StrippedChunks` | src/codecs/raster.rs:1367-1425 | a file with nothing to remove comes back as it is; any other with exactly the chunks whose names the policy leaves, in order, unchanged but for the cleared bits of its headers |
| `WebpPolicies.StripRefusedIff` | src/codecs/raster.rs:1367-1425 | a rewrite is given up exactly when the file does not parse or, with something to remove, has an empty extended header or would not fit the size field |
| `WebpPolicies.FreshHeader` | src/codecs/raster.rs:2484-2513 | into a file without a full extended header the injector writes one with exactly these bytes: the flags of what it adds and of alpha, three zeros, the sides of the bitstream canvas less one |
| `WebpPolicies.OwnHeaderKept` | src/codecs/raster.rs:2484-2513 | a file's own extended header keeps everything behind its flags |
| `WebpPolicies.InjectRefusedIff` | src/codecs/raster.rs:2458-2558 | an injection fails, as a failure to encode, exactly when some payload is given and the file does not parse or, with something to add, has neither a full extended header nor a canvas that is not empty, or would not fit the size field |
| `WebpSniffer.SniffWebp` | src/core.rs:3218-3260 | the header walk reports size, alpha and frames as specified, through the 14-bit and 24-bit fields |
| `WebpSniffer.CountWebpFrames` | src/core.rs:3263-3284 | the number of `ANMF` chunks, up to u32 saturation |
| `WebpSniffer.WebpExifPayload` | src/core.rs:3007-3025 | the first EXIF payload of the walk without its JPEG prefix |
| `WebpSniffer.SnifferMatchesParser` | src/core.rs:3007-3369 | on a file that parses, the three walks report what the parsed chunk list says |
| `WebpFields.PrintedFileSniffs` | src/core.rs:3218-3369 | a file whose first header chunk prints a width and a height in one of the three formats is reported with them, with its own alpha bit, and with two or more frames (the `ANMF` chunks, saturated) only under the animation bit |
| `WebpFields.RefusedIffUnreadable` | src/core.rs:3218-3369 | a file that parses is refused exactly when it has no header chunk or the first one is too short or starts otherwise than its kind does |
| `WebpFields.FailsToDecode` | src/core.rs:3218-3369 | a file without an answer fails to decode |
| `WebpFields.LossySniffs` | src/codecs/raster.rs:2405-2430 | of every printed lossy header the sniffer and the injector read the same width and height, whatever the scale bits |
| `WebpFields.LosslessSniffs` | src/codecs/raster.rs:2405-2430 | of every printed lossless header they read the same width, height and alpha, whatever the version bits |
| `WebpSniffer.InjectedSniff` | src/codecs/raster.rs:2458-2558 | for every file: after an injection the sniffer reports what the header it started from says, the file's frames, and the carried or else the given EXIF |
| `WebpSniffer.InjectKeepsFacts` | src/codecs/raster.rs:2458-2558 | where an extended header comes first: injecting keeps size and frames, and keeps alpha exactly unless a stray `ALPH` chunk adds it |
| `WebpSniffer.StrayAlphaGainsAlpha` | src/codecs/raster.rs:2484-2502 | a 1x1 lossy file with an empty `ALPH` chunk shows alpha only after a profile is injected |
| `WebpSniffer.LateHeaderTakesOver` | src/codecs/raster.rs:2484-2558 | a file with its extended header behind the bitstream reports 1x1 before an injection and the header's 2x2 after it |
| `WebpSniffer.StripKeepsFacts` | src/codecs/raster.rs:1367-1425 | stripping keeps every reported fact; the EXIF block stays exactly when the policy does not remove it |
| `PngChunks.PngBytesSatisfyingMetadataPolicy` | src/codecs/raster.rs:1314-1353 | the copying loop computes the stripping specified on the chunk list |
| `PngChunks.WalkEncoded` | src/codecs/raster.rs:1314-1353 | any printed chunk list ending in `IEND` is walked back to itself, whatever follows it |
| `PngChunks.RawChunks` | src/codecs/raster.rs:1314-1353 | the walked list prints to the very bytes it was read from |
| `PngChunks.StripRemovesExactly` | src/codecs/raster.rs:1314-1353 | a candidate exists exactly for walkable files; it has the same signature and the same list with exactly the unwanted metadata kinds taken out, ending at `IEND` |
| `PngFields.RewrittenChunks` | src/codecs/raster.rs:1314-1353 | by name: the text chunks go, and `iCCP` and `eXIf` go unless the policy preserves that one; all other chunks stay in order |
| `PngChunks.StripAgain` | src/codecs/raster.rs:1314-1353 | stripping is idempotent, and stripping everything absorbs any policy before it |
| `PngChunks.StripNeverGrows` | src/codecs/raster.rs:1314-1353 | the candidate is never longer than the file |
| `PngChunks.ValidatePngPalette` | src/codecs/raster.rs:278-305 | the walk refuses exactly where the specified check does |
| `PngChunks.PaletteCheckIsExact` | src/codecs/raster.rs:278-305 | on a walkable file: accepted if and only if every palette in the list has 1 to 256 whole entries |
| `PngFields.PaletteIffTriples` | src/codecs/raster.rs:278-305 | a walkable file is accepted if and only if each `PLTE` chunk has three bytes for each of 1 to 256 entries |
| `PngChunks.StripKeepsPaletteVerdict` | src/codecs/raster.rs:278-1353 | stripping neither breaks a palette nor hides a broken one |
| `PngSniffer.PngAncillaryFacts` | src/core.rs:2911-2945 | transparency and frame count read up to the image data, or the panic, as specified |
| `PngSniffer.ReturnsIffCountsPresent` | src/core.rs:2931-2935 | the walk returns if and only if no frame count it reads is cut off |
| `PngSniffer.CutFilePanics` | src/core.rs:2860-2935 | 41-byte files on which the sniffer does not return |
| `PngSniffer.FactsMatch` | src/core.rs:2911-2945 | on a walkable file the byte walk returns, with the facts the chunk list states |
| `PngFields.HeaderIsSniffed` | src/core.rs:2860-2945 | a file whose `IHDR` prints these fields is reported with that width and height; with alpha for colour types 4 and 6, by the presence of a `tRNS` chunk before the image data for 0, 2 and 3; and with the last frame count before the image data, at least one |
| `PngFields.RefusedIffHeaderless` | src/core.rs:2860-2945 | a file is refused exactly when it is shorter than 29 bytes or does not name `IHDR` |
| `PngSniffer.PngExifPayload` | src/core.rs:2979-3000 | the first `eXIf` payload of the walk without its JPEG prefix |
| `Bytes.PrefixDropped` | src/core.rs:3028-3033 | the name `Exif` and two zero bytes are dropped from the front of a payload once, and nothing else is |
| `PngSniffer.StripKeepsFacts` | src/core.rs:2860-2945 | a stripped file reports the same size, colour type, transparency and frame count |
| `PngSniffer.StripKeepsExifIff` | src/core.rs:2979-3000 | the EXIF block survives unchanged when the policy keeps it and is gone otherwise |
| `PngCrc.PngCrc32` | src/codecs/raster.rs:2805-2818 | the nested loops compute the specified register |
| `PngCrc.UnstepAfterStep` | src/codecs/raster.rs:2808-2815 | a register step can be undone |
| `PngCrc.StepAfterUnstep` | src/codecs/raster.rs:2808-2815 | every register is the result of a step: steps are bijections |
| `PngCrc.StepLinear` | src/codecs/raster.rs:2808-2815 | a step is linear over exclusive or |
| `PngCrc.FeedLinear` | src/codecs/raster.rs:2805-2818 | for equal-length messages the xor of the two feeds is the feed of the xored messages from the xored registers |
| `PngCrc.DamageDecides` | src/codecs/raster.rs:2805-2818 | whether a damaged message keeps its CRC depends on the damage alone |
| `PngCrc.BurstDetected` | src/codecs/raster.rs:2805-2818 | two equal-length messages whose bits differ only within 32 consecutive ones never share a CRC, wherever the burst starts |
| `PngCrc.ByteBurstDetected` | src/codecs/raster.rs:2805-2818 | in particular messages that differ only within four consecutive bytes |
| `PngCrcCode.CrcIsRemainder` | src/codecs/raster.rs:2805-2818 | the register is the complement of the remainder of the message, preset with ones and shifted by 32, on division by the generator with the exponents 32, 26, 23, 22, 16, 12, 11, 10, 8, 7, 5, 4, 2, 1, 0: a register is that remainder if and only if it is the CRC |
| `PngCrcCode.DivisionIsUnique` | src/codecs/raster.rs:2805-2818 | division by the generator has one remainder of at most 32 bits |
| `PngCrcCode.KnownValue` | src/codecs/raster.rs:2805-2818 | the CRC of the bytes FF FF FF 7F is 12477CDF |
| `PngInject.InjectPngXmp` | src/codecs/raster.rs:2744-2802 | the injector computes the specified file or error |
| `PngInject.InjectedChunk` | src/codecs/raster.rs:2769-2801 | the inserted bytes read back as an `iTXt` chunk holding the packet, whose stored CRC is that of its type and data; all else is the original file |
| `PngFields.InjectedText` | src/codecs/raster.rs:2769-2801 | the inserted chunk is named `iTXt` and holds the Adobe keyword, the five zero bytes of an uncompressed text without language, and the packet |
| `PngFields.InjectedIff` | src/codecs/raster.rs:2744-2768 | an injection succeeds exactly on the eight signature bytes with a first chunk that fits the file |
| `PngInject.InsertedList` | src/codecs/raster.rs:2757-2801 | the new file is walkable exactly when the old one was, with the chunk standing second in its list |
| `PngInject.DeclaredLength` | src/codecs/raster.rs:2786-2792 | the declared length is the real one if and only if the packet is at most 2^32 - 23 bytes |
| `PngInject.StripUndoesInject` | src/codecs/raster.rs:1314-2802 | stripping after injecting equals stripping the original |
| `PngInject.InjectKeepsFacts` | src/codecs/raster.rs:2744-2802 | the sniffer reports the same facts and EXIF before and after |
| `JpegSegments.OptimizeJpegBytesLosslessly` | src/codecs/raster.rs:1493-1565 | the rewriting loop computes the specified file or error |
| `JpegSegments.JpegSegmentEnd` | src/codecs/raster.rs:1567-1586 | a segment's end, or an error exactly when its length field is short, missing or past the file |
| `JpegSegments.ReadPrinted` | src/codecs/raster.rs:1493-1565 | a printed list of items with an ending reads back as itself |
| `JpegGrammar.ReadsIffJpegFile` | src/codecs/raster.rs:1493-1586 | a file is accepted, with these items and this ending, if and only if it is the start marker, the items with any number of fill bytes before each code (01 and D0 to D7 alone, every other code with a length field that counts itself), and D9 with anything behind it or DA with a scan header and data in which FF D9 occurs |
| `JpegSegments.OptimizedReads` | src/codecs/raster.rs:1493-1599 | the result reads as the items the policy keeps, in order with identical payloads, and the same ending from the first start of scan on |
| `JpegPolicies.RewrittenItems` | src/codecs/raster.rs:1493-1599 | the rewritten file holds the same items in order, less comments and APP1 to APP15 segments but APP14 under StripAll, and less all of those but the `ICC_PROFILE` or the `Exif` ones under the other two |
| `JpegPolicies.MetadataAndRest` | src/codecs/raster.rs:1588-1599 | under every policy the items of all other codes are the input's, and the metadata items are all, none, exactly the APP2 profile segments or exactly the APP1 Exif segments |
| `JpegSegments.OptimizedAgain` | src/codecs/raster.rs:1493-1565 | idempotent; a keeping pass before, and any policy before a full strip, change nothing |
| `JpegSegments.OptimizedConservation` | src/codecs/raster.rs:1493-1565 | every byte left out is a fill byte, part of a dropped segment, or behind the end marker; the file is unchanged if and only if there is none |
| `JpegSegments.OptimizedNeverGrows` | src/codecs/raster.rs:1493-1565 | the result is never longer than the input |
| `JpegSniffer.SniffJpeg` | src/core.rs:3137-3216 | the header walk reports size and first Exif block, or fails, as specified |
| `JpegSniffer.JpegExifPayload` | src/core.rs:3097-3135 | the first Exif block of the walk |
| `JpegSniffer.SnifferMatchesReader` | src/core.rs:3137-3216 | on a readable file the walk reports what the item list says |
| `JpegFrames.AnswersIffFrame` | src/core.rs:3137-3216 | the sniffer answers with a width, a height and an Exif block if and only if the file leads, over items that are no frame headers, to one of the thirteen start-of-frame codes with that height and then that width printed in it, and the block is the first on the way |
| `JpegFrames.FailsToDecode` | src/core.rs:3137-3216 | a file without an answer fails to decode |
| `JpegFrames.SearchIffExif` | src/core.rs:3097-3135 | the whole-file search finds a block if and only if the file leads, over items that are no Exif segments, to one that holds it |
| `JpegSniffer.RetainsExif` | src/codecs/raster.rs:1254-1256 | asking the segment rule with a bare prefix answers whether the policy keeps EXIF |
| `JpegSniffer.OptimizedKeepsFacts` | src/core.rs:3097-3216 | the rewritten file has the same size or the same failure, and its Exif block is the input's when the policy keeps Exif and none otherwise |
| `JpegInject.InjectJpegXmp` | src/codecs/raster.rs:2650-2678 | one APP1 segment directly after the start marker, or an error when it is no JPEG or does not fit |
| `JpegInject.InjectJpegIptc` | src/codecs/raster.rs:2685-2735 | one APP13 segment with the resource block, or an error |
| `JpegInject.InjectJpegMetadata` | src/codecs/raster.rs:2570-2643 | best effort: each packet goes in if it fits, IPTC first and XMP second |
| `JpegInject.InjectedReads` | src/codecs/raster.rs:2650-2735 | the new file is readable exactly when the old one was, with the segment before its items |
| `JpegPackets.InjectedItems` | src/codecs/raster.rs:2570-2735 | in front of a readable file's own items stand an APP1 segment with the XMP namespace and packet and then an APP13 segment with the Photoshop name and one `8BIM` resource 0404 padded to an even length, each where it was given and fits 65,533 bytes; bytes that do not start as a JPEG come back unchanged |
| `JpegInject.StripUndoesInject` | src/codecs/raster.rs:1493-2735 | stripping after injecting equals stripping the original, whether or not the packets fitted |
| `JpegInject.InjectKeepsFacts` | src/codecs/raster.rs:2650-2735 | on every file, readable or not, what the sniffer reports and the Exif block found are the same before and after |
| `Passthrough.SmallerPassthrough` | src/codecs/raster.rs:1278-1303 | hands the candidate back exactly when the request is eligible and the candidate is shorter than the encode |
| `Passthrough.TryPassthroughLosslessOptimization` | src/codecs/raster.rs:1181-1227 | a lossless JPEG request is answered without a decode, or refused |
| `Passthrough.LosslessRefusedIff` | src/codecs/raster.rs:1181-1249 | a lossless JPEG request is refused for want of the capability if and only if it asks for another input type, a side, a quality, a background, a rotation, a crop, a blur, a sharpening, grayscale, a watermark, or for an orientation to be applied whose tag the policy drops; otherwise it fails exactly on a file that is no JPEG |
| `Passthrough.ReplacedIff` | src/codecs/raster.rs:1229-1303 | the encode is replaced by other bytes if and only if they are the file rewritten in its own container, shorter, any optimization is on, and none of those things is asked for |
| `Passthrough.PassthroughIsThePicture` | src/codecs/raster.rs:173-1303 | the bytes handed back stand for what the stages would have made: they turn the picture upright and change neither its size nor another pixel, and either upright is as stored or the EXIF block is still there |
| `Passthrough.CandidateNeverGrows` | src/codecs/raster.rs:1278-1425 | in each container a candidate is no longer than its input |
| `Passthrough.CandidateStable` | src/codecs/raster.rs:1278-1565 | the candidate of a candidate is itself |
| `Passthrough.CandidateExif` | src/codecs/raster.rs:1229-1256 | the JPEG rule's answer holds in all three containers: a candidate carries the EXIF block exactly when the policy retains EXIF |
| `Passthrough.NeverGrows` | src/codecs/raster.rs:110-119 | with optimization on, an eligible request with a candidate never ends longer than its input, whatever the encoder returned |
| `Passthrough.PassthroughStaysUpright` | src/codecs/raster.rs:1229-1256 | with auto-orientation on, the bytes handed back need no rotation or still carry the tag that says so |
| `QualitySearch.SearchQualityForTarget` | src/codecs/raster.rs:1812-1852 | with no assumption on the scores: at most floor(log2(top)) + 1 probes, none twice; `Met` is probed, reaches the target and is 1 or has a probed miss just below; `Shortfall` is the top with its own encode, every probe having missed |
| `QualitySearch.HalvingsIsLog` | src/codecs/raster.rs:1812-1852 | the probe bound is the base-2 logarithm rounded down, plus one |
| `QualitySearch.MonotoneSearchIsExact` | src/codecs/raster.rs:1812-1852 | with monotone scores `Met` is the least quality reaching the target and `Shortfall` means none does |
| `QualityPath.FindsLeastIffPathClear` | src/codecs/raster.rs:1812-1852 | with every probe encoded and no monotonicity: the search finds the least quality reaching the target if and only if every midpoint above it on the halvings that close in on it reaches the target |
| `QualityPath.MonotoneFindsLeast` | src/codecs/raster.rs:1812-1852 | monotone scores meet that condition |
| `QualityPath.ShortfallIffTopPathMisses` | src/codecs/raster.rs:1812-1852 | with every probe encoded: the answer is a shortfall if and only if every midpoint of the halvings towards the top misses, and it hides a quality exactly when those miss and another one reaches the target |
| `QualityPath.CeilingEndsIff` | src/codecs/raster.rs:1825-1835 | with a cap of 255 the loop ends if and only if some midpoint on the way to 255 reaches the target |
| `QualitySearch.ShortfallCanMissAQuality` | src/codecs/raster.rs:1812-1852 | scores on which the search answers with a shortfall although quality 1 reaches the target |
| `QualitySearch.StuckAtCeiling` | src/codecs/raster.rs:1834-1834 | a miss leaves the range as it was exactly when the range is down to 255 |
| `ResizeGeometry.ResizeMatchesPrediction` | src/codecs/raster.rs:482-927 | the resize produces exactly the size the limit check measures |
| `ResizeRequests.NoSideGiven` | src/codecs/raster.rs:482-532 | with no side given the image keeps its size |
| `ResizeRequests.WidthGiven` | src/codecs/raster.rs:482-532 | a width alone is met exactly, or without enlargement is the smaller of request and source; the output then exceeds the source on neither axis and is the source where the request is at least as wide |
| `ResizeRequests.HeightGiven` | src/codecs/raster.rs:482-532 | the same for a height alone |
| `ResizeRequests.BothSidesGiven` | src/codecs/raster.rs:482-532 | contain, also when no mode is named, is the box; fill and cover are the box, or the smaller of box and source on each axis; inside lies in the box and reaches it, or lies in the source and is the source wherever that fits |
| `ResizeGeometry.ContentMeetsBox` | src/codecs/raster.rs:396-445 | contain and inside content lies in the box and touches it; cover content covers it, even where the cast saturates |
| `ResizeGeometry.NeverEnlarges` | src/codecs/raster.rs:423-445 | without enlargement no mode's content exceeds the source on either axis |
| `ResizeGeometry.CoverReturns` | src/codecs/raster.rs:482-532 | cover returns the box, or exactly the elementwise minimum of box and source when it may not enlarge |
| `ResizeGeometry.CheckedResizeFitsBudget` | src/codecs/raster.rs:547-611 | once the check passes, the output and every buffer on the way keep the pixel budget, and the output keeps the format's axis ceiling |
| `ResizeRequests.CheckIsExact` | src/codecs/raster.rs:547-611 | the check passes if and only if the output and every buffer have at most 67,108,864 pixels, a JPEG at most 65,535 and a WebP at most 16,383 on an axis |
| `ResizeRequests.BuffersAreThere` | src/codecs/raster.rs:861-927 | the scaled content and the output are among the buffers the check speaks of |
| `ResizeGeometry.SaturationIsRefused` | src/codecs/raster.rs:547-589 | a cover content that saturated the cast is refused |
| `ResizeAspect.ContentKeepsAspect` | src/codecs/raster.rs:396-445 | contain, inside, and cover that may not enlarge keep cw*sh - ch*sw within sw + sh for every source and box, and within half of it when no side was raised to one |
| `ResizeAspect.CheckedCoverKeepsAspect` | src/codecs/raster.rs:423-589 | an enlarging cover keeps the same bounds once the limit check has passed |
| `ResizeAspect.ScaledSideKeepsAspect` | src/codecs/raster.rs:1071-1074 | the side derived from the other one keeps the ratio to within the side it is scaled from, or half of it, unless the cast saturated |
| `ResizeAspect.CheckedSideKeepsAspect` | src/codecs/raster.rs:482-589 | a resize by one side keeps that bound once the limit check has passed |
| `Placement.PlacedInside` | src/codecs/raster.rs:1146-1169 | content no larger than its canvas lies inside it, at the edges or centres its position names |
| `Placement.ResizePlacements` | src/codecs/raster.rs:1076-1144 | both composed canvases, padding and cover crop, meet that condition for every source and box |
| `Placement.WatermarkPlacement` | src/codecs/raster.rs:1001-1069 | a watermark is accepted if and only if its offset places it inside the image at its margins without a saturated subtraction |
| `Orientation.OrientationIsExif` | src/codecs/raster.rs:625-636 | each orientation maps pixels as the EXIF table says, and swaps the axes exactly when the tag transposes |
| `Orientation.OrientationIsBijective` | src/codecs/raster.rs:625-636 | every stored pixel is displayed at exactly one place |
| `Orientation.ComposeActs` | src/codecs/raster.rs:625-636 | two orientations in a row act on images of every size as one |
| `Orientation.DihedralGroup` | src/codecs/raster.rs:625-636 | the eight form a non-commutative group; 6 and 8 are inverse and every other one is its own inverse |
| `Orientation.DegreesNormalize` | src/core.rs:1366-1422 | the core's two spellings and the signer's reduce an angle to the same number in 0..360, and reducing sums is summing reductions |
| `Orientation.RotationsAdd` | src/codecs/raster.rs:650-663 | rotating by two multiples of 90 is rotating by their sum modulo 360, on images of every size |
| `Orientation.TurnsClockwise` | src/codecs/raster.rs:650-663 | where each stored pixel goes under every multiple of 90 degrees: positive angles turn clockwise |
| `PixelStages.CropCheckIsExact` | src/codecs/raster.rs:841-850 | on every image that passes the input pixel limit the saturating bounds check lets exactly the rectangles inside the image through |
| `PixelStages.UprightSpelled` | src/codecs/raster.rs:173-190 | the tag counts when auto-orientation is on, and the quarter turns are the tags 1, 6, 3 and 8 |
| `PixelStages.CroppedPixel` | src/codecs/raster.rs:173-237 | tag, rotation and crop together move each pixel once, as one orientation followed by a shift in displayed coordinates |
| `PixelStages.StagesArePredicted` | src/codecs/raster.rs:60-237 | the input limit and the stages succeed exactly when the input keeps its pixel limit, the crop lies inside, the output check passes and the watermark fits and keeps its own limit, all on sizes predicted from the source's size; the output then has the predicted size, keeps budget and ceiling, and holds its watermark |
| `PixelStages.RefusalsAreNamed` | src/codecs/raster.rs:60-957 | which error a refusal is: the first of the input limit, the crop, the output check, the fit of the watermark and its limit that fails |
| `PixelStages.LargeWatermarkIsRefused` | src/codecs/raster.rs:937-957 | a watermark above four million pixels is refused although it fits |
| `SvgText.DelimitedEnd` | src/core.rs:2411-2424 | scanning for a terminator recognises exactly the strings that end at its first occurrence |
| `SvgText.ScanPrinted` | src/core.rs:2426-2437 | text made of characters and quoted literals is stepped over whatever the literals hold |
| `SvgText.ScanExplained` | src/core.rs:2426-2437 | whatever the scan steps over is made of such parts |
| `SvgProlog.SubsetTokenPrinted` | src/core.rs:2439-2464 | each kind of markup in an internal subset is stepped over exactly |
| `SvgProlog.SubsetTokenExplained` | src/core.rs:2439-2464 | each step over an internal subset takes exactly one token of the grammar |
| `SvgProlog.DoctypePrinted` | src/core.rs:2411-2469 | a printed doctype is stepped over exactly, whatever its literals and its subset hold |
| `SvgProlog.DoctypeExplained` | src/core.rs:2411-2469 | whatever is taken for a doctype is one |
| `SvgProlog.RootIffProlog` | src/core.rs:2354-2395 | a position is the root's if and only if a delimited `<svg` stands there and the text before it is an optional byte-order mark and a valid prolog with at most one doctype |
| `SvgScanner.SkipDoctype` | src/core.rs:2411-2469 | the loops end at the specified position and terminate |
| `SvgScanner.SkipSubset` | src/core.rs:2439-2464 | the subset loop ends at the `]` that closes it |
| `SvgScanner.SvgRootElement` | src/core.rs:2354-2395 | the loop returns the text from the root on, exactly when there is a root |
| `SvgRootReader.ReadRootTag` | src/core.rs:2522-2539 | the quote-tracking loop finds the specified end of the tag |
| `SvgRootReader.ReadRootAttribute` | src/core.rs:2545-2607 | the loops compute the specified lookup and always make progress |
| `SvgRootReader.ReadEntry` | src/core.rs:2559-2600 | one pass of the loop reads the entry that starts there and where it ends |
| `SvgRootTag.TagRoundTrip` | src/core.rs:2522-2607 | for every printed start tag: it ends at its own `>`, and a name has the value of the first attribute with exactly that name, or none |
| `SvgRootTag.RootAttributeExplained` | src/core.rs:2541-2607 | for every text: an answer is a whole name, its `=` and a quoted value standing in the tag, so no longer name answers for a shorter one |
| `Gif.SkipGifSubBlocks` | src/core.rs:2819-2833 | the chain's end, or an error exactly when the file ends inside it |
| `Gif.SniffGif` | src/core.rs:2726-2812 | the walk reports what the specification does, saturating its frame count |
| `Gif.BlocksPrinted` | src/core.rs:2750-2797 | printed blocks are counted exactly whatever bytes their tables and sub-blocks hold |
| `Gif.BlocksExplained` | src/core.rs:2750-2797 | whatever a successful walk went over is a list of blocks and an ending |
| `Gif.SniffIffBlocks` | src/core.rs:2726-2812 | an answer is given if and only if the file consists of blocks and an ending with an image, and it is the screen size, the saturated image count, and whether some graphic control extension is transparent |
| `Gif.FailsToDecode` | src/core.rs:2726-2812 | a file without an answer fails to decode |
| `WideIntegers.ParseWide` | src/core.rs:2055-2068 | the digit loop with its early overflow computes the specified reading |
| `WideIntegers.IntegersAreClassified` | src/core.rs:2055-2068 | every integer text of any length is read as itself or as past the end it is past |
| `WideIntegers.IntegersSpelled` | src/core.rs:2055-2068 | an integer is digits, alone or after a plus sign, or after a minus sign that negates them |
| `WideIntegers.OthersAreRefused` | src/core.rs:2055-2068 | other text is refused exactly when its leading digits are in range or there are none |
| `WideIntegers.OverlongTextIsMisread` | src/core.rs:2055-2068 | nineteen nines and a letter are read as a number past the range |
| `WideIntegers.SaturationDecides` | src/core.rs:2070-2081 | a range inside i64 accepts the held value exactly when it accepts the number |
| `WideIntegers.ChecksDecideUnbounded` | src/core.rs:2136-2188 | a dimension or a margin of any number of digits is accepted from 0 to 4,294,967,295, a quality or an opacity from 1 to 100, and refused on the right side otherwise |
| `CropRegions.FieldDecides` | src/core.rs:638-657 | a field is read exactly when it is digits spelling a number within u32, and called too large exactly when it spells a larger one |
| `CropRegions.AcceptedIffFourFields` | src/core.rs:606-657 | a crop is accepted if and only if its text is four such fields with non-zero sides, and it is the crop they spell |
| `CropRegions.RefusalNamesFirst` | src/core.rs:606-657 | a refusal names the number of fields, else the first field that cannot be read, else a side of zero |
| `CropRegions.CropRoundTrip` | src/core.rs:606-663 | parsing the printed form of any crop with non-zero sides gives it back |
| `CropRegions.SplitAfterJoin` | src/core.rs:609-615 | splitting at commas inverts joining with them |
| `EditDistance.EditDistanceWithin` | packages/truss-url-signer/index.js:882-909 | the one-pass loop answers whether its counted edits stay within the limit |
| `EditDistance.WithinIsSound` | packages/truss-url-signer/index.js:882-909 | a yes is right for every limit: the Levenshtein distance is within it |
| `EditDistance.WithinOneIsExact` | packages/truss-url-signer/index.js:882-909 | with limit 1 the answer is yes if and only if the recursive Levenshtein distance is at most 1 |
| `EditDistance.ExactIffAtMostOne` | packages/truss-url-signer/index.js:882-909 | the pass decides the distance on all strings for the limits 0 and 1 and for no other |
| `EditDistance.IsAdjacentTransposition` | packages/truss-url-signer/index.js:860-880 | true if and only if one string is the other with one unequal neighbouring pair swapped |
| `EditDistance.NearestKey` | packages/truss-url-signer/index.js:843-852 | the first allowed key within one edit or one swap of the given one, none when none is |

## Left out

- Pixel codecs, resampling, blur, sharpening, grayscale and pixel blending: foreign or floating-point code; images are sizes and, before the resize, pixel positions.
- Rotation by angles that are no multiple of 90, its bounding box and its own limit check: sine and cosine.
- Score values (PSNR, SSIM) and scores that are not a number; a score is any real number.
- The orientation value inside an EXIF block: read by a foreign crate; the block's bytes are modelled.
- `is_svg` and UTF-8 decoding: texts are sequences of characters; the source's byte loops look for ASCII only, so they see the same positions.
- The intrinsic size of an SVG (`svg_length_px`, `parse_view_box`): floating-point parsing.
- BMP, TIFF and AVIF detection, and the signature tests that choose a sniffer: flat comparisons.
- Option rules of `normalize`, name tables, message wording, serde visitors, deadlines, panic containment: flat case lists or environment.
- `extract_retained_metadata` and the warnings of `inject_metadata`: decoder calls and wording; `JpegInject.InjectJpegMetadata` models the JPEG arm's bytes.
- CLI, HTTP, WASM, signing and URL parsing: thin wrappers and I/O.
- Slices are values: aliasing and the capacity of buffers are not captured; appending through a reference is (`Bytes.ByteVec`).
- WebpSniffer.InjectKeepsFacts: stated for files whose extended header, when there is one, comes first; `WebpSniffer.InjectedSniff` covers every file, and `WebpSniffer.LateHeaderTakesOver` shows that the facts can change otherwise.
- PngSniffer.StripKeepsFacts: stated for files whose first chunk is a 13-byte `IHDR`; the sniffer reads fixed offsets that are something else in other files.
- PngInject.InjectKeepsFacts: stated for files whose first chunk is a 13-byte `IHDR` and packets that fit the length field, for the same reasons.
- PngInject.InjectedChunk: stated for packets that fit the chunk's length field; `PngInject.DeclaredLength` says exactly when that is.
- PngInject.StripUndoesInject: stated for packets that fit the chunk's length field; `PngInject.DeclaredLength` says exactly when that is.
- PngFields.InjectedText: stated for packets that fit the chunk's length field, as `PngInject.InjectedChunk` is.
- WebpFields.PrintedFileSniffs: stated for files that parse; in others the walk reads the same headers up to the first chunk that does not fit.
- PngFields.HeaderIsSniffed: stated for files that are walkable; the sniffer also answers for files cut off behind their header.
- QualitySearch.SearchQualityForTarget: stated for caps below 255, which validated qualities are; `QualityPath.CeilingEndsIff` says exactly when the loop ends at 255.
- PixelStages.StagesArePredicted: stated for rotations that are whole multiples of 90 degrees; other angles have a limit check of their own.
- The watermark's decode, and the comparison of its decoded with its declared size; inputs and watermarks that declare no size, on which the limits are skipped.
