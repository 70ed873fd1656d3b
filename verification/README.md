# FairyTurtle HLS engine — a Dafny model

FairyTurtle is the HLS playback engine of the Telegram video player. This project models its core in Dafny, in six parts:

- **Media playlist parser.** Reads `#EXTINF`, `#EXT-X-BYTERANGE` and `#EXT-X-MAP` tags into a timeline of segments, each with a URL, an optional byte range, a start time and a duration.
- **Master playlist parser.** Reads `#EXT-X-STREAM-INF` tags into streams, then sorts them by bandwidth and height.
- **Playlist objects.** `FTMediaPlaylist` and `FTMasterPlaylist` prefetch content and answer which segments start at or after a time.
- **Media provider.** Keeps a window of segments being requested and a cache of downloaded ones, and hands ready batches to the flight.
- **Playback flight and manager.** The flight chooses a stream, seeks, feeds segments to the decoders, and numbers decoded frames for presentation. After a seek it resolves the nearest keyframe. The manager queues frames and drains them into the video layer on display ticks.
- **C H.264 SPS parser.** Bit reader, Exp-Golomb codes, emulation-prevention removal, and the sequence parameter set fields up to the cropped picture size, following ITU-T H.264.

The model is written with pure functions over immutable datatypes:

- Each Swift class becomes a datatype, and each method a function from the old state to the new state plus the effects it issues.
- Downloads, decoder callbacks and the layer's readiness become explicit inputs.
- Undefined behaviour in the C code is a result of its own, `Outcome.Undefined`. The contracts state exactly when it occurs.
- A Swift runtime trap (a reversed `Range`) is a result of its own as well: `None`, or `Trap` for the media parser. The contracts state exactly when it occurs.

Modules:

| file | module | models |
|---|---|---|
| basics.dfy | Basics | options, bytes, URLs, byte ranges |
| bits.dfy | BitReader | `eof` and `u` |
| exp_golomb.dfy | ExpGolomb | `ue` and `se` |
| emulation.dfy | EmulationPrevention | `del_emulation_prevention`, with the section 7.3.1 / 7.4.1 pair as reference |
| sps.dfy | Sps | `h264_sps_parse` without the VUI |
| text.dfy | Text | the string helpers the parsers use |
| media_playlist_parser.dfy | MediaPlaylistParser | `FTMediaPlaylistParser` |
| master_playlist_parser.dfy | MasterPlaylistParser | `FTMasterPlaylistParser` |
| playlists.dfy | Playlists | `FTMediaPlaylist`, `FTMasterPlaylist` |
| media_provider.dfy | MediaProvider | `FTMediaProvider` |
| playback_flight.dfy | PlaybackFlight | `FTPlaybackFlight` |
| playback_manager.dfy | PlaybackManager | the deque, tick and quality parts of `FTPlaybackManager` |

## Model

| member | source | states |
|---|---|---|
| BitReader.BitOfByte | submodules/TelegramUniversalVideoContent/FairyTurtle_Level_2/Sources/ThirdParty/h264_sps_parse/h264_sps_parse.c:27 | The bit that the mask `0x80 >> (index % 8)` picks out of byte `index / 8` is that byte divided by `2^(7 - index % 8)`, modulo 2. |
| BitReader.ReadBitsValue | submodules/TelegramUniversalVideoContent/FairyTurtle_Level_2/Sources/ThirdParty/h264_sps_parse/h264_sps_parse.c:21-31 | The loop invariant of `u`: after `k` of `n` (at most 32) in-range bits, the shifted 32-bit accumulator holds the first `k` bits as a big-endian number. |
| BitReader.ReadBitsPastEnd | submodules/TelegramUniversalVideoContent/FairyTurtle_Level_2/Sources/ThirdParty/h264_sps_parse/h264_sps_parse.c:22-31 | A read that reaches the end of the data yields 0, whatever it had accumulated, and the index stops at `8 * size`. |
| BitReader.U | submodules/TelegramUniversalVideoContent/FairyTurtle_Level_2/Sources/ThirdParty/h264_sps_parse/h264_sps_parse.c:19-34 | `u(bs, n)` inside the data returns the `n` bits at the index, MSB first, and advances the index by `n`. A read that runs off the end returns 0 and leaves the index at the end. The value always fits in 32 bits. |
| BitReader.ByteAligned | submodules/TelegramUniversalVideoContent/FairyTurtle_Level_2/Sources/ThirdParty/h264_sps_parse/h264_sps_parse.c:19-34 | An 8-bit read that starts on a byte boundary returns that byte. |
| BitReader.LowFiveBits | submodules/TelegramUniversalVideoContent/FairyTurtle_Level_2/Sources/ThirdParty/h264_sps_parse/h264_sps_parse.c:198-200 | After the 1-bit and 2-bit header reads, the 5-bit read returns `byte0 & 0x1F`. |
| ExpGolomb.CountZerosRun | submodules/TelegramUniversalVideoContent/FairyTurtle_Level_2/Sources/ThirdParty/h264_sps_parse/h264_sps_parse.c:44-47 | `k` zero bits (at most 32) followed by a 1, all in the data, make the zero-counting loop stop at `k`, with the 1 consumed. |
| ExpGolomb.CountZerosReaches | submodules/TelegramUniversalVideoContent/FairyTurtle_Level_2/Sources/ThirdParty/h264_sps_parse/h264_sps_parse.c:44-47 | The count reaches 31 exactly when the next bits are 31 zeros with more data after them. |
| ExpGolomb.UE | submodules/TelegramUniversalVideoContent/FairyTurtle_Level_2/Sources/ThirdParty/h264_sps_parse/h264_sps_parse.c:42-50 | `ue` is undefined exactly when 31 zero bits lie ahead inside the data, because `1 << zeroNum` overflows `int`. Otherwise its value is below `2^31` and the index never goes back. At the end of the data `ue` returns 0 and leaves the index unchanged. |
| ExpGolomb.UEDecodes | submodules/TelegramUniversalVideoContent/FairyTurtle_Level_2/Sources/ThirdParty/h264_sps_parse/h264_sps_parse.c:42-50 | Exp-Golomb code of section 9.1 of ITU-T H.264: `k <= 30` zeros, then a 1, then `k` info bits decode to `2^k - 1 + info` and consume `2k + 1` bits. |
| ExpGolomb.SignedCodeNum | submodules/TelegramUniversalVideoContent/FairyTurtle_Level_2/Sources/ThirdParty/h264_sps_parse/h264_sps_parse.c:52-63 | `se` maps an odd code number `k` to `(k+1)/2` and an even one to `-(k/2)`. Mapping the result back through Table 9-3 of section 9.1.1 returns `k`. |
| ExpGolomb.CodeNumSigned | submodules/TelegramUniversalVideoContent/FairyTurtle_Level_2/Sources/ThirdParty/h264_sps_parse/h264_sps_parse.c:52-63 | The other direction of the Table 9-3 mapping. Every value in `-2^30 < s <= 2^30`, exactly the range `se` can return, has a code number below `2^31` that maps back to it. |
| ExpGolomb.SE | submodules/TelegramUniversalVideoContent/FairyTurtle_Level_2/Sources/ThirdParty/h264_sps_parse/h264_sps_parse.c:52-63 | `se` is undefined exactly when `ue` is. Otherwise the code number of its result is `ue`'s value, and the index ends where `ue` left it. |
| EmulationPrevention.Escaped | submodules/TelegramUniversalVideoContent/FairyTurtle_Level_2/Sources/ThirdParty/h264_sps_parse/h264_sps_parse.c:81-82 | The sum test `data[i] + data[i+1] + (data[i+2] ^ 3) == 0` holds exactly when the three bytes are `00 00 03`. |
| EmulationPrevention.ShiftLoop | submodules/TelegramUniversalVideoContent/FairyTurtle_Level_2/Sources/ThirdParty/h264_sps_parse/h264_sps_parse.c:83-85 | The inner loop removes byte `j` and repeats the last byte, so the buffer keeps its length. |
| EmulationPrevention.Scan | submodules/TelegramUniversalVideoContent/FairyTurtle_Level_2/Sources/ThirdParty/h264_sps_parse/h264_sps_parse.c:80-89 | The outer loop keeps the buffer length, never writes bytes 0 and 1, and counts at most one removal per position it tests. |
| EmulationPrevention.ScanUntouched | submodules/TelegramUniversalVideoContent/FairyTurtle_Level_2/Sources/ThirdParty/h264_sps_parse/h264_sps_parse.c:80-89 | With no `00 00 03` from position `i` on, the scan leaves the buffer and the count unchanged. |
| EmulationPrevention.ScanRemoves | submodules/TelegramUniversalVideoContent/FairyTurtle_Level_2/Sources/ThirdParty/h264_sps_parse/h264_sps_parse.c:80-89 | When the scan reaches a `00 00 03`, the removal count goes up. |
| EmulationPrevention.DelEmulationPrevention | submodules/TelegramUniversalVideoContent/FairyTurtle_Level_2/Sources/ThirdParty/h264_sps_parse/h264_sps_parse.c:77-90 | Undefined exactly for sizes 0 and 1, where the bound `size - 2` wraps around. Otherwise bytes 0 and 1 are kept and the size never grows. The output is shorter than the input by exactly the number of removals the scan makes. Input without `00 00 03` comes back unchanged; input with one gets shorter. |
| EmulationPrevention.DelEmulationPreventionUnescapes | submodules/TelegramUniversalVideoContent/FairyTurtle_Level_2/Sources/ThirdParty/h264_sps_parse/h264_sps_parse.c:77-90 | On every input of two or more bytes in which `00 00 03 00 03` does not occur, the routine returns exactly what the section 7.3.1 decoder `Unescape` returns. |
| EmulationPrevention.ScanUnescapes | submodules/TelegramUniversalVideoContent/FairyTurtle_Level_2/Sources/ThirdParty/h264_sps_parse/h264_sps_parse.c:80-89 | Mid-scan, the buffer holds the output so far, then the unread input, then one copy of the last byte per removal. From such a buffer, on input without `00 00 03 00 03`, the scan ends with the output followed by the decoding of the unread input. |
| EmulationPrevention.UnescapeEscape | submodules/TelegramUniversalVideoContent/FairyTurtle_Level_2/Sources/ThirdParty/h264_sps_parse/h264_sps_parse.c:77-90 | The round trip: removing escapes from an escaped payload returns that payload. |
| EmulationPrevention.UnescapeNoEscape | submodules/TelegramUniversalVideoContent/FairyTurtle_Level_2/Sources/ThirdParty/h264_sps_parse/h264_sps_parse.c:77-90 | On input with no `00 00 03`, the section 7.3.1 removal keeps the input, just as the routine does. |
| EmulationPrevention.RescanDropsPayload | submodules/TelegramUniversalVideoContent/FairyTurtle_Level_2/Sources/ThirdParty/h264_sps_parse/h264_sps_parse.c:80-89 | On the escaped form `67 00 00 03 00 03` of the payload `67 00 00 00 03`, the section 7.3.1 removal returns the payload. The routine instead rescans the bytes it has shifted and also drops the final `03`, returning `67 00 00 00`. |
| Sps.SkipBits | submodules/TelegramUniversalVideoContent/FairyTurtle_Level_2/Sources/ThirdParty/h264_sps_parse/h264_sps_parse.c:204-210 | `count` dropped 1-bit reads move the index forward by `count` inside the data, and otherwise stop it at the end. |
| Sps.ReadChroma | submodules/TelegramUniversalVideoContent/FairyTurtle_Level_2/Sources/ThirdParty/h264_sps_parse/h264_sps_parse.c:215-227 | Profiles outside the high-profile list take `chroma_format_idc = 1` without reading anything. High profiles read it with `ue`: if that `ue` is undefined, so is the read, and otherwise its value is kept and is below `2^31`. |
| Sps.HighProfileFields | submodules/TelegramUniversalVideoContent/FairyTurtle_Level_2/Sources/ThirdParty/h264_sps_parse/h264_sps_parse.c:221-239 | The high-profile fields are read in order: the separate-plane flag, both bit depths, the bypass flag, and the scaling-matrix flag with its list flags. Reading them never moves the index backwards. |
| Sps.ScalingMatrix | submodules/TelegramUniversalVideoContent/FairyTurtle_Level_2/Sources/ThirdParty/h264_sps_parse/h264_sps_parse.c:228-239 | With the scaling-matrix flag set and `chroma_format_idc == 3`, the twelve-iteration loop writes past the eight-entry array: this is undefined, and exactly this case is. Otherwise the list flags are read and no `scaling_list()` body is parsed. |
| Sps.SkipSigned | submodules/TelegramUniversalVideoContent/FairyTurtle_Level_2/Sources/ThirdParty/h264_sps_parse/h264_sps_parse.c:251-255 | The `offset_for_ref_frame` loop of `count` `se` reads never moves the index backwards. It can be undefined only when it reads at least one `se`, and it is undefined whenever the first `se` is. |
| Sps.ReadPicOrderCount | submodules/TelegramUniversalVideoContent/FairyTurtle_Level_2/Sources/ThirdParty/h264_sps_parse/h264_sps_parse.c:242-257 | If the `pic_order_cnt_type` read is undefined, so is this. A type of 2 or more reads nothing further, and the index only moves forward. |
| Sps.ReadCrop | submodules/TelegramUniversalVideoContent/FairyTurtle_Level_2/Sources/ThirdParty/h264_sps_parse/h264_sps_parse.c:276-279 | The four crop offsets, each below `2^31`, in left, right, top, bottom order. The first is the next `ue`. |
| Sps.ReadSyntax | submodules/TelegramUniversalVideoContent/FairyTurtle_Level_2/Sources/ThirdParty/h264_sps_parse/h264_sps_parse.c:203-279 | The SPS fields up to the crop offsets. `profile_idc` is the 8 bits after the header. `level_idc` follows exactly six flag bits and the 2 reserved bits. Chroma defaults to 1 outside the high profiles, and every field is within its read's range. |
| Sps.CropUnitsStandard | submodules/TelegramUniversalVideoContent/FairyTurtle_Level_2/Sources/ThirdParty/h264_sps_parse/h264_sps_parse.c:282-290 | The parser's crop units equal `CropUnitX`/`CropUnitY` (equations 7-19 to 7-22) for every valid `chroma_format_idc`, whatever the separate-colour-plane flag, which the parser ignores. |
| Sps.Dimensions | submodules/TelegramUniversalVideoContent/FairyTurtle_Level_2/Sources/ThirdParty/h264_sps_parse/h264_sps_parse.c:266-293 | The stored width and height are the uncropped size minus crop units times the crop offsets, modulo `2^32`. They are undefined exactly when `(w+1)*16` overflows `int`. |
| Sps.DimensionsStandard | submodules/TelegramUniversalVideoContent/FairyTurtle_Level_2/Sources/ThirdParty/h264_sps_parse/h264_sps_parse.c:266-293 | Within range, the stored sizes equal the cropped frame size of section 7.4.2.1.1 in the standard's crop units, whenever that size is representable: a non-negative width, and a height in `0 ..< 2^32`. |
| Sps.NalHeader | submodules/TelegramUniversalVideoContent/FairyTurtle_Level_2/Sources/ThirdParty/h264_sps_parse/h264_sps_parse.c:198-200 | The three header reads end at bit 8 and give the NAL unit type `byte0 & 0x1F`. |
| Sps.HeaderBytes | submodules/TelegramUniversalVideoContent/FairyTurtle_Level_2/Sources/ThirdParty/h264_sps_parse/h264_sps_parse.c:203-211 | `profile_idc` is byte 1 and `level_idc` is byte 3 of the unescaped buffer, or 0 past its end. |
| Sps.ParseRbsp | submodules/TelegramUniversalVideoContent/FairyTurtle_Level_2/Sources/ThirdParty/h264_sps_parse/h264_sps_parse.c:195-302 | A non-SPS unit returns 0 exactly when the type is not 7. A parsed SPS carries bytes 1 and 3 as profile and level, and a width and height that fit 32 bits. |
| Sps.ParseSps | submodules/TelegramUniversalVideoContent/FairyTurtle_Level_2/Sources/ThirdParty/h264_sps_parse/h264_sps_parse.c:184-306 | Returns 0 without parsing exactly for missing data, size 0 or a missing `info`. Size 1 is undefined. For size 2 or more it returns 0 for a non-SPS unit exactly when `byte0 & 0x1F != 7`. `profile_idc` is byte 1, and `level_idc` is byte 3 when the input has no escapes. |
| Sps.ParseSpsCorrected | submodules/TelegramUniversalVideoContent/FairyTurtle_Level_2/Sources/ThirdParty/h264_sps_parse/h264_sps_parse.c:184-306 | The same parse with the section 7.3.1 removal in place of the routine. It returns 0 without parsing for exactly the inputs the original does: missing data, size 0 or a missing `info`. |
| Sps.CorrectedParsesPayload | submodules/TelegramUniversalVideoContent/FairyTurtle_Level_2/Sources/ThirdParty/h264_sps_parse/h264_sps_parse.c:184-306 | Every escaped payload parses, through the corrected routine, exactly as the payload itself. |
| Sps.AgreeWithoutEscapes | submodules/TelegramUniversalVideoContent/FairyTurtle_Level_2/Sources/ThirdParty/h264_sps_parse/h264_sps_parse.c:193 | On input with no `00 00 03`, the original and the corrected parse agree. |
| Text.Contains | submodules/TelegramUniversalVideoContent/FairyTurtle_Level_1/Sources/FTMediaPlaylist/FTMediaPlaylistParser.swift:73-75 | `content.find(t) != nil` holds exactly when `t` occurs at some position of the text. |
| Text.IntegerValue | submodules/TelegramUniversalVideoContent/FairyTurtle_Level_1/Sources/FTMasterPlaylist/FTMasterPlaylistParser.swift:54 | `integerValue` of an all-digit string is its decimal value, and of an empty string is 0. |
| Text.AccumulateDigitsValue | submodules/TelegramUniversalVideoContent/FairyTurtle_Level_1/Sources/FTMasterPlaylist/FTMasterPlaylistParser.swift:54 | The left-to-right accumulation `integerValue` performs gives the decimal value of the leading digit run. |
| Text.DecimalRun | submodules/TelegramUniversalVideoContent/FairyTurtle_Level_1/Sources/FTMediaPlaylist/FTMediaPlaylistParser.swift:140-146 | The match of `^[0-9.]+` is the longest prefix made of digits and dots. |
| Text.DecimalValue | submodules/TelegramUniversalVideoContent/FairyTurtle_Level_1/Sources/FTMediaPlaylist/FTMediaPlaylistParser.swift:146 | `doubleValue` of a `[0-9.]+` token is never negative, and for an all-digit token it is that integer. |
| Text.Lowercase | submodules/TelegramUniversalVideoContent/FairyTurtle_Level_1/Sources/FTMasterPlaylist/FTMasterPlaylistParser.swift:47 | `lowercased()` keeps the length and lower-cases every ASCII capital, character by character. |
| Text.TrimQuotes | submodules/TelegramUniversalVideoContent/FairyTurtle_Level_1/Sources/FTMasterPlaylist/FTMasterPlaylistParser.swift:50 | Trimming quotes leaves no quote at either end, never lengthens the text, and leaves text without quotes unchanged. |
| Text.BeforeFirst | submodules/TelegramUniversalVideoContent/FairyTurtle_Level_1/Sources/FTMasterPlaylist/FTMasterPlaylistParser.swift:59 | The first component split on `x` is a prefix without `x`, and it ends at the first `x` or at the end of the text. |
| Text.AfterLast | submodules/TelegramUniversalVideoContent/FairyTurtle_Level_1/Sources/FTMasterPlaylist/FTMasterPlaylistParser.swift:60 | The last component split on `x` is a suffix without `x`, and it starts just after the last `x` or at the start of the text. |
| MediaPlaylistParser.FindByteRange | submodules/TelegramUniversalVideoContent/FairyTurtle_Level_1/Sources/FTMediaPlaylist/FTMediaPlaylistParser.swift:150-158 | A match of `([0-9]+)(?:@([0-9]+))` found from a position lies at or after it, requires the `@offset` group, and yields the two groups' decimal values. |
| MediaPlaylistParser.FindByteRangeNone | submodules/TelegramUniversalVideoContent/FairyTurtle_Level_1/Sources/FTMediaPlaylist/FTMediaPlaylistParser.swift:155 | The search finds nothing only when no match starts at or after the position. |
| MediaPlaylistParser.FindByteRangeLeftmost | submodules/TelegramUniversalVideoContent/FairyTurtle_Level_1/Sources/FTMediaPlaylist/FTMediaPlaylistParser.swift:155 | The match found is the leftmost one. |
| MediaPlaylistParser.Parse | submodules/TelegramUniversalVideoContent/FairyTurtle_Level_1/Sources/FTMediaPlaylist/FTMediaPlaylistParser.swift:72-207 | `parse()` returns nil exactly when no line contains `#EXTINF:`. Otherwise it traps exactly when the `#EXT` block before some URI line builds a reversed range. That is a MAP tag with a URI and a negative BYTERANGE length, or a segment whose length, the last one the block sets, is negative. Short of a trap, the info carries the given quality and URL, and every range in it has `lower <= upper`. |
| MediaPlaylistParser.StepPreservesInv | submodules/TelegramUniversalVideoContent/FairyTurtle_Level_1/Sources/FTMediaPlaylist/FTMediaPlaylistParser.swift:189-198 | Each line keeps the parser invariant: no pending value, and a timeline that ends at the running duration and offset. A URI line appends exactly one segment at its resolved URL, and any other line appends none. |
| MediaPlaylistParser.NonUriLinesOnlyQueueTags | submodules/TelegramUniversalVideoContent/FairyTurtle_Level_1/Sources/FTMediaPlaylist/FTMediaPlaylistParser.swift:189-198 | A line that is not a URI appends no segment. A `#EXT` line is only queued. Any other such line, empty or a `#` comment, changes nothing: no value is pending, so the flush returns early. |
| MediaPlaylistParser.RunKeepsInv | submodules/TelegramUniversalVideoContent/FairyTurtle_Level_1/Sources/FTMediaPlaylist/FTMediaPlaylistParser.swift:183-199 | The scanning loop keeps the invariant over any sequence of lines. |
| MediaPlaylistParser.RunFacts | submodules/TelegramUniversalVideoContent/FairyTurtle_Level_1/Sources/FTMediaPlaylist/FTMediaPlaylistParser.swift:183-199 | The loop keeps the earlier segments and appends one segment per URI line, in document order, at that line's resolved URL. |
| MediaPlaylistParser.ParseSegments | submodules/TelegramUniversalVideoContent/FairyTurtle_Level_1/Sources/FTMediaPlaylist/FTMediaPlaylistParser.swift:162-176 | A parsed playlist has one segment per URI line, in order, at the lines' URLs. Its segments form a timeline: the first starts at 0, each starts where the previous ended, `until == since + duration`, and durations are non-negative. |
| MediaPlaylistParser.FoldDurationNonNegative | submodules/TelegramUniversalVideoContent/FairyTurtle_Level_1/Sources/FTMediaPlaylist/FTMediaPlaylistParser.swift:139-147 | Durations come from `[0-9.]+` tokens, so no fold produces a negative one. |
| MediaPlaylistParser.FoldDuration | submodules/TelegramUniversalVideoContent/FairyTurtle_Level_1/Sources/FTMediaPlaylist/FTMediaPlaylistParser.swift:139-147 | A segment's duration is the value of the token of the last `#EXTINF:` tag that has one. Without one it stays 0. |
| MediaPlaylistParser.SegmentDuration | submodules/TelegramUniversalVideoContent/FairyTurtle_Level_1/Sources/FTMediaPlaylist/FTMediaPlaylistParser.swift:162-176 | The segment a flush appends lasts as its last `#EXTINF:` token says, and starts at the running duration. |
| MediaPlaylistParser.SegmentByteRange | submodules/TelegramUniversalVideoContent/FairyTurtle_Level_1/Sources/FTMediaPlaylist/FTMediaPlaylistParser.swift:162-174 | The segment's offset is the explicit offset when non-zero, else the running offset. Its range is `offset ..< offset + length`, and the running offset becomes `offset + length`. The flush traps exactly when its block does. Short of a trap, the range is not reversed. |
| MediaPlaylistParser.ByteRangeContinuity | submodules/TelegramUniversalVideoContent/FairyTurtle_Level_1/Sources/FTMediaPlaylist/FTMediaPlaylistParser.swift:164-174 | Without MAP tags and non-zero explicit offsets, each segment's range starts where the previous one ended, or at 0 for the first. |
| MediaPlaylistParser.FoldMapAndOffset | submodules/TelegramUniversalVideoContent/FairyTurtle_Level_1/Sources/FTMediaPlaylist/FTMediaPlaylistParser.swift:101-137 | The map is the location of the last MAP tag with a non-empty URI. The running offset grows by the MAP tags' offsets, not their lengths. The fold traps exactly at a MAP tag with a URI and a negative length. |
| MediaPlaylistParser.FoldTrapAndLength | submodules/TelegramUniversalVideoContent/FairyTurtle_Level_1/Sources/FTMediaPlaylist/FTMediaPlaylistParser.swift:101-158 | Over a block, the fold traps exactly at a MAP tag with a URI and a negative length. Its final length is the one set by the last MAP tag or matched BYTERANGE tag, or the initial one. |
| MediaPlaylistParser.FlushTraps | submodules/TelegramUniversalVideoContent/FairyTurtle_Level_1/Sources/FTMediaPlaylist/FTMediaPlaylistParser.swift:130-165 | A flush traps exactly when its block has a trapping MAP tag or leaves a negative length for the segment's range. |
| MediaPlaylistParser.RunTraps | submodules/TelegramUniversalVideoContent/FairyTurtle_Level_1/Sources/FTMediaPlaylist/FTMediaPlaylistParser.swift:183-199 | The loop traps exactly when a trapping block reaches a URI line. Tags after the last URI line never reach a flush, so they never trap. |
| MediaPlaylistParser.RunKeepsOrdered | submodules/TelegramUniversalVideoContent/FairyTurtle_Level_1/Sources/FTMediaPlaylist/FTMediaPlaylistParser.swift:130-173 | Short of a trap, the map's range and every segment's range have `lower <= upper`. |
| MasterPlaylistParser.ExtractFieldsLastWins | submodules/TelegramUniversalVideoContent/FairyTurtle_Level_1/Sources/FTMasterPlaylist/FTMasterPlaylistParser.swift:45-63 | Keys match case-insensitively, and the last duplicate wins. BANDWIDTH is read as an integer and CODECS as the quote-trimmed value. RESOLUTION gives the width before the first `x` and the height after the last `x`. Missing keys leave 0 or the empty string. |
| MasterPlaylistParser.Insert | submodules/TelegramUniversalVideoContent/FairyTurtle_Level_1/Sources/FTMasterPlaylist/FTMasterPlaylistParser.swift:98-108 | One insertion step of the sort is a permutation: the result holds the old streams plus the new one. |
| MasterPlaylistParser.SortStreams | submodules/TelegramUniversalVideoContent/FairyTurtle_Level_1/Sources/FTMasterPlaylist/FTMasterPlaylistParser.swift:98-108 | The sorted list is a permutation of the emitted streams. |
| MasterPlaylistParser.SortStreamsSorted | submodules/TelegramUniversalVideoContent/FairyTurtle_Level_1/Sources/FTMasterPlaylist/FTMasterPlaylistParser.swift:98-108 | When every two streams are comparable, meaning one has both bandwidth and height no greater than the other's, the result is non-decreasing in both. |
| MasterPlaylistParser.LtIrreflexive | submodules/TelegramUniversalVideoContent/FairyTurtle_Level_1/Sources/FTMasterPlaylist/FTMasterPlaylistParser.swift:98-108 | The comparator is irreflexive. |
| MasterPlaylistParser.LtNotAsymmetric | submodules/TelegramUniversalVideoContent/FairyTurtle_Level_1/Sources/FTMasterPlaylist/FTMasterPlaylistParser.swift:98-108 | The comparator is not asymmetric: a higher-bandwidth, lower-height stream and its opposite each compare below the other. |
| MasterPlaylistParser.FlushTagsCount | submodules/TelegramUniversalVideoContent/FairyTurtle_Level_1/Sources/FTMasterPlaylist/FTMasterPlaylistParser.swift:31-73 | A flush emits one stream per STREAM-INF tag, each at the URL resolved from the pending value, even an empty one. |
| MasterPlaylistParser.RunCount | submodules/TelegramUniversalVideoContent/FairyTurtle_Level_1/Sources/FTMasterPlaylist/FTMasterPlaylistParser.swift:79-96 | The loop keeps the streams it had. It adds one stream per STREAM-INF line followed later by a flushing line (`#EXT` or empty), and adds the already-pending tags' streams when any flushing line occurs. |
| MasterPlaylistParser.ParseCount | submodules/TelegramUniversalVideoContent/FairyTurtle_Level_1/Sources/FTMasterPlaylist/FTMasterPlaylistParser.swift:79-96 | A master playlist yields one stream per flushed STREAM-INF tag. A tag still pending when the input ends is lost, because the loop exits without a final flush. |
| MasterPlaylistParser.StepKeepsOneTag | submodules/TelegramUniversalVideoContent/FairyTurtle_Level_1/Sources/FTMasterPlaylist/FTMasterPlaylistParser.swift:86-88 | Each `#EXT` line flushes before it is queued, so at most one tag is ever pending and each line adds at most one stream. |
| MasterPlaylistParser.RunKeepsOneTag | submodules/TelegramUniversalVideoContent/FairyTurtle_Level_1/Sources/FTMasterPlaylist/FTMasterPlaylistParser.swift:80-96 | Over any input at most one tag is pending, and the stream count grows by at most one per line, plus one. |
| Playlists.TimelineOrder | submodules/TelegramUniversalVideoContent/FairyTurtle_Level_1/Sources/FTMediaPlaylist/FTMediaPlaylistParser.swift:170-175 | Along a parsed timeline every segment ends no later than any later one starts. |
| Playlists.FirstSince | submodules/TelegramUniversalVideoContent/FairyTurtle_Level_1/Sources/FTMediaPlaylist/FTMediaPlaylist.swift:61 | The reference for the filter: the index of the first segment starting at or after `t`, or the count. |
| Playlists.SegmentsSince | submodules/TelegramUniversalVideoContent/FairyTurtle_Level_1/Sources/FTMediaPlaylist/FTMediaPlaylist.swift:61 | The filter keeps exactly the segments with `since >= t`. |
| Playlists.SegmentsSinceAppend | submodules/TelegramUniversalVideoContent/FairyTurtle_Level_1/Sources/FTMediaPlaylist/FTMediaPlaylist.swift:61 | The filter keeps the original order: filtering a concatenation concatenates the filtered parts. |
| Playlists.SegmentsSinceSuffix | submodules/TelegramUniversalVideoContent/FairyTurtle_Level_1/Sources/FTMediaPlaylist/FTMediaPlaylist.swift:61 | On a list ordered by `since`, the filter returns exactly the suffix from the first segment at or after `t`. |
| Playlists.MediaPrefetch | submodules/TelegramUniversalVideoContent/FairyTurtle_Level_1/Sources/FTMediaPlaylist/FTMediaPlaylist.swift:32-57 | A failed download changes nothing and skips the completion. The prefetch traps exactly when the parser traps on the manifest. Otherwise `info` becomes the parse result, which is nil exactly when no line has `#EXTINF:`, and the completion receives it. |
| Playlists.MediaPrefetchInfo | submodules/TelegramUniversalVideoContent/FairyTurtle_Level_1/Sources/FTMediaPlaylist/FTMediaPlaylist.swift:49-55 | A media manifest traps the prefetch exactly when one of its tag blocks traps. Otherwise `info` has one segment per URI line on a timeline from 0, with the playlist's own quality and URL. |
| Playlists.MediaRequestSegments | submodules/TelegramUniversalVideoContent/FairyTurtle_Level_1/Sources/FTMediaPlaylist/FTMediaPlaylist.swift:59-66 | Returns empty without `info`, and otherwise the segments filtered by `since >= t`. |
| Playlists.MediaRequestSegmentsSuffix | submodules/TelegramUniversalVideoContent/FairyTurtle_Level_1/Sources/FTMediaPlaylist/FTMediaPlaylist.swift:59-66 | A parsed playlist answers with the tail of its list from the first segment at or after `t`. |
| Playlists.Active | submodules/TelegramUniversalVideoContent/FairyTurtle_Level_1/Sources/FTMasterPlaylist/FTMasterPlaylist.swift:104-108 | The active playlist exists exactly when one has been set and the children are non-empty. It is the first child. |
| Playlists.Classify | submodules/TelegramUniversalVideoContent/FairyTurtle_Level_1/Sources/FTMasterPlaylist/FTMasterPlaylist.swift:59-87 | The media parse of the content traps exactly when the parser traps on it. Content with `#EXTINF:` otherwise gives one child of quality 0 at the master's URL. Content without it gives one child per parsed stream, in parser order, with quality `pixelHeight` and the stream's URL. Every child starts without info. |
| Playlists.ClassifyCount | submodules/TelegramUniversalVideoContent/FairyTurtle_Level_1/Sources/FTMasterPlaylist/FTMasterPlaylist.swift:64-87 | A master manifest gives one child per flushed STREAM-INF tag. |
| Playlists.MasterPrefetch | submodules/TelegramUniversalVideoContent/FairyTurtle_Level_1/Sources/FTMasterPlaylist/FTMasterPlaylist.swift:42-93 | A failed download changes nothing. The prefetch traps exactly when the media parser traps on the manifest. Otherwise the URL is kept, a child is active exactly when there are children, and the active child has no info yet. |
| Playlists.ChildLoaded | submodules/TelegramUniversalVideoContent/FairyTurtle_Level_1/Sources/FTMasterPlaylist/FTMasterPlaylist.swift:104-116 | A child's download traps exactly when the parser traps on its manifest. Otherwise it touches only that child. The master's completion runs exactly when the active child loaded, and it receives the master's `info`. |
| Playlists.AvailableMediaPlaylists | submodules/TelegramUniversalVideoContent/FairyTurtle_Level_1/Sources/FTMasterPlaylist/FTMasterPlaylist.swift:34-36 | The available infos are exactly the children's present infos. |
| Playlists.AvailableAppend | submodules/TelegramUniversalVideoContent/FairyTurtle_Level_1/Sources/FTMasterPlaylist/FTMasterPlaylist.swift:34-36 | `compactMap` keeps order: the available list of a concatenation is the concatenation of the lists. |
| Playlists.AvailableAllLoaded | submodules/TelegramUniversalVideoContent/FairyTurtle_Level_1/Sources/FTMasterPlaylist/FTMasterPlaylist.swift:34-36 | When every child has its info, the available list is those infos, child by child. |
| Playlists.Info | submodules/TelegramUniversalVideoContent/FairyTurtle_Level_1/Sources/FTMasterPlaylist/FTMasterPlaylist.swift:38-40 | When present, the master's `info` is that of its active first child. |
| Playlists.MasterRequestSegments | submodules/TelegramUniversalVideoContent/FairyTurtle_Level_1/Sources/FTMasterPlaylist/FTMasterPlaylist.swift:95-102 | Returns empty without an active child, and otherwise that child's answer. |
| Playlists.MasterRequestSegmentsSuffix | submodules/TelegramUniversalVideoContent/FairyTurtle_Level_1/Sources/FTMasterPlaylist/FTMasterPlaylist.swift:95-102 | With a parsed active child, the answer is the tail of its list from the first segment at or after `t`. |
| Playlists.MasterOfMediaManifest | submodules/TelegramUniversalVideoContent/FairyTurtle_Level_1/Sources/FTMasterPlaylist/FTMasterPlaylist.swift:59-63 | A media manifest traps the master prefetch exactly when one of its tag blocks traps. Otherwise it makes a one-child master. Once loaded, that child carries the master's URL, quality 0 and one segment per URI line. |
| MediaProvider.FirstContaining | submodules/TelegramUniversalVideoContent/FairyTurtle_Level_1/Sources/FTMediaProvider/FTMediaProvider.swift:113-121 | `firstIndex` of the containment filter: no earlier segment contains `t`, and the index found does. |
| MediaProvider.WindowSet | submodules/TelegramUniversalVideoContent/FairyTurtle_Level_1/Sources/FTMediaProvider/FTMediaProvider.swift:127-128 | The index set holds exactly the integers in `lo ..< hi`. |
| MediaProvider.Purge | submodules/TelegramUniversalVideoContent/FairyTurtle_Level_1/Sources/FTMediaProvider/FTMediaProvider.swift:148-152 | The purge removes exactly the cached keys below the level and leaves the other entries untouched. |
| MediaProvider.PreloadTimeRange | submodules/TelegramUniversalVideoContent/FairyTurtle_Level_1/Sources/FTMediaProvider/FTMediaProvider.swift:100-164 | A rejected or trapping request changes nothing. An accepted window is non-empty, lies within the segments, runs between the search's two indices, and does not overlap `requestingRange`, which then becomes exactly the window. The answer is the `until` of the window's last segment. Only cached keys at or above `max(0, lower - 2 * (upper - lower))` survive, and nothing else changes. |
| MediaProvider.BindPlaylist | submodules/TelegramUniversalVideoContent/FairyTurtle_Level_1/Sources/FTMediaProvider/FTMediaProvider.swift:49-59 | `bindPlaylist` installs the info and clears `requestingRange` and both caches. |
| MediaProvider.PreloadNext | submodules/TelegramUniversalVideoContent/FairyTurtle_Level_1/Sources/FTMediaProvider/FTMediaProvider.swift:61-75 | While `current` is more than the warm duration before `next`, it returns `next` and changes nothing. A request that schedules nothing returns `next` unchanged. One that schedules a batch marks it non-fresh, and the window in flight becomes exactly that batch. |
| MediaProvider.ResetTo | submodules/TelegramUniversalVideoContent/FairyTurtle_Level_1/Sources/FTMediaProvider/FTMediaProvider.swift:77-87 | When `resetTo` schedules nothing, it only forgets the window in flight and returns the timestamp. When it schedules a batch, the batch is fresh and the window in flight becomes exactly that batch. |
| MediaProvider.DiscardAll | submodules/TelegramUniversalVideoContent/FairyTurtle_Level_1/Sources/FTMediaProvider/FTMediaProvider.swift:89-93 | `discardAll` drops both caches and keeps the window in flight and the info. |
| MediaProvider.SegmentArrived | submodules/TelegramUniversalVideoContent/FairyTurtle_Level_1/Sources/FTMediaProvider/FTMediaProvider.swift:176-184 | A finished download stores its data under its index. A failed one removes that entry. Nothing else changes. |
| MediaProvider.MappingArrived | submodules/TelegramUniversalVideoContent/FairyTurtle_Level_1/Sources/FTMediaProvider/FTMediaProvider.swift:166-174 | The mapping download replaces the cached mapping data, even with nothing. |
| MediaProvider.CachedIndices | submodules/TelegramUniversalVideoContent/FairyTurtle_Level_1/Sources/FTMediaProvider/FTMediaProvider.swift:195-201 | The delivered indices are exactly the cached keys in the window, strictly ascending. |
| MediaProvider.ReadyFired | submodules/TelegramUniversalVideoContent/FairyTurtle_Level_1/Sources/FTMediaProvider/FTMediaProvider.swift:186-216 | Without info nothing happens. Otherwise `requestingRange` is cleared and the batch delivers its freshness flag, the cached mapping and the cached segments of its window in ascending index order, each with its segment. |
| MediaProvider.WindowOrdered | submodules/TelegramUniversalVideoContent/FairyTurtle_Level_1/Sources/FTMediaProvider/FTMediaProvider.swift:120-127 | On a parsed timeline with `warm >= 0`, `sinceIndex <= untilIndex`, so the range `sinceIndex ..< untilIndex` is well-formed. |
| MediaProvider.NeverTraps | submodules/TelegramUniversalVideoContent/FairyTurtle_Level_1/Sources/FTMediaProvider/FTMediaProvider.swift:120-131 | A provider holding a parsed timeline never reaches the trapping range construction. |
| MediaProvider.StartingWindowContents | submodules/TelegramUniversalVideoContent/FairyTurtle_Level_1/Sources/FTMediaProvider/FTMediaProvider.swift:108-121 | A `starting` window holds exactly the segments that start in `[next, next + warm)`. |
| MediaProvider.ResetToRejectsOnlyEmpty | submodules/TelegramUniversalVideoContent/FairyTurtle_Level_1/Sources/FTMediaProvider/FTMediaProvider.swift:77-86 | `resetTo` refuses only an empty window. Otherwise it schedules a fresh batch over the window and returns its last segment's `until`. |
| MediaProvider.PreloadNextRejectsOverlap | submodules/TelegramUniversalVideoContent/FairyTurtle_Level_1/Sources/FTMediaProvider/FTMediaProvider.swift:129-131 | A `preloadNext` window that overlaps the one in flight returns `next` and changes nothing. |
| MediaProvider.PurgeKeepsRecent | submodules/TelegramUniversalVideoContent/FairyTurtle_Level_1/Sources/FTMediaProvider/FTMediaProvider.swift:148-152 | After an accepted request, every cached entry from two window lengths before the window's start onward is kept unchanged. |
| MediaProvider.ReadyReopens | submodules/TelegramUniversalVideoContent/FairyTurtle_Level_1/Sources/FTMediaProvider/FTMediaProvider.swift:193 | Once a ready completion has fired, any non-empty window is accepted again. |
| PlaybackFlight.Init | submodules/TelegramUniversalVideoContent/FairyTurtle_Level_1/Sources/FTPlaybackManager/FTPlaybackFlight.swift:77-80 | The flight's provider is created with a warm duration of 10. The `Valid` invariant records this and a parsed timeline, and every flight operation keeps it. |
| PlaybackFlight.Start | submodules/TelegramUniversalVideoContent/FairyTurtle_Level_1/Sources/FTPlaybackManager/FTPlaybackFlight.swift:91-94 | `start` marks the flight started and resets the frame index to 0. It touches neither the provider nor the seek. |
| PlaybackFlight.MasterReady | submodules/TelegramUniversalVideoContent/FairyTurtle_Level_1/Sources/FTPlaybackManager/FTPlaybackFlight.swift:96-101 | Without info nothing happens. With info the provider is bound to it, and the seek is untouched. |
| PlaybackFlight.HighestAtMost | submodules/TelegramUniversalVideoContent/FairyTurtle_Level_1/Sources/FTPlaybackManager/FTPlaybackFlight.swift:109-111 | Some playlist is found exactly when one has quality at most `q`. The one found has the highest such quality. |
| PlaybackFlight.Lowest | submodules/TelegramUniversalVideoContent/FairyTurtle_Level_1/Sources/FTPlaybackManager/FTPlaybackFlight.swift:109-115 | The last of the quality-descending list is a playlist of the lowest quality. It exists exactly when the list is non-empty. |
| PlaybackFlight.ChooseStream | submodules/TelegramUniversalVideoContent/FairyTurtle_Level_1/Sources/FTPlaybackManager/FTPlaybackFlight.swift:109-116 | A playlist is chosen exactly when some is available, and it is one of them. |
| PlaybackFlight.ActivateStream | submodules/TelegramUniversalVideoContent/FairyTurtle_Level_1/Sources/FTPlaybackManager/FTPlaybackFlight.swift:104-120 | Before `start`, or with no available playlist, nothing happens. The seek, the frame index and the preload time never change. |
| PlaybackFlight.ActivateStreamChoice | submodules/TelegramUniversalVideoContent/FairyTurtle_Level_1/Sources/FTPlaybackManager/FTPlaybackFlight.swift:104-120 | The bound playlist is available and has the highest quality at most `q`. If every quality is above `q`, it has the lowest quality. The provider's window and cache are cleared. |
| PlaybackFlight.SeekFraction | submodules/TelegramUniversalVideoContent/FairyTurtle_Level_1/Sources/FTPlaybackManager/FTPlaybackFlight.swift:130-140 | For the first segment with `since <= ts < until`, the fraction `r` lies in `[0, 1)` and satisfies `since + r * (until - since) == ts`. It is -1 when no segment contains `ts`. |
| PlaybackFlight.SeekResolved | submodules/TelegramUniversalVideoContent/FairyTurtle_Level_1/Sources/FTPlaybackManager/FTPlaybackFlight.swift:122-145 | Without info nothing happens. Otherwise a new seek request with that fraction and no buffered frames replaces any live one, and the bound playlist stays. |
| PlaybackFlight.PreloadMore | submodules/TelegramUniversalVideoContent/FairyTurtle_Level_1/Sources/FTPlaybackManager/FTPlaybackFlight.swift:148-152 | With a live seek nothing happens. Otherwise the provider's `preloadNext(now, preloadTimestamp)` answer becomes the new state and preload time. |
| PlaybackFlight.FeedSegments | submodules/TelegramUniversalVideoContent/FairyTurtle_Level_1/Sources/FTPlaybackManager/FTPlaybackFlight.swift:186-197 | The segment loop changes only the segment being decoded, and feeds every payload under the batch's id. |
| PlaybackFlight.FeedSegmentsFeeds | submodules/TelegramUniversalVideoContent/FairyTurtle_Level_1/Sources/FTPlaybackManager/FTPlaybackFlight.swift:186-197 | The decoders receive exactly the admitted segments with a non-empty payload, in order, each anchored at its start. A segment is admitted when no seek is live, or when it contains the seek time. The segment being decoded becomes the last one fed. |
| PlaybackFlight.OnDelivery | submodules/TelegramUniversalVideoContent/FairyTurtle_Level_1/Sources/FTPlaybackManager/FTPlaybackFlight.swift:171-198 | A fresh delivery first resets the decoders and sets the frame index to 0. A non-fresh one keeps the index. Neither touches the seek or the provider. |
| PlaybackFlight.Commit | submodules/TelegramUniversalVideoContent/FairyTurtle_Level_1/Sources/FTPlaybackManager/FTPlaybackFlight.swift:154-169 | `commitVideoFrame` requests a restart exactly when the entry index is 0. The frame's PTS numerator and the return value are the entry index. Afterwards the index is the forced value, or entry + 1. |
| PlaybackFlight.OnVideoFrame | submodules/TelegramUniversalVideoContent/FairyTurtle_Level_1/Sources/FTPlaybackManager/FTPlaybackFlight.swift:203-214 | The frame is stamped with the decoding segment's `until`. It is buffered exactly when a seek request with the batch's id is live, and otherwise committed at the current index. |
| PlaybackFlight.CommitAllRun | submodules/TelegramUniversalVideoContent/FairyTurtle_Level_1/Sources/FTPlaybackManager/FTPlaybackFlight.swift:154-169 | Committing frames one after another numbers them consecutively from the entry index. A restart comes first exactly when that index is 0. |
| PlaybackFlight.CommitAllForced | submodules/TelegramUniversalVideoContent/FairyTurtle_Level_1/Sources/FTPlaybackManager/FTPlaybackFlight.swift:256-263 | Committing a seek's frames: the first takes the entry index and then forces the counter to 0. A second restart follows, and the remaining frames are numbered from 0. |
| PlaybackFlight.LowerKeyframe | submodules/TelegramUniversalVideoContent/FairyTurtle_Level_1/Sources/FTPlaybackManager/FTPlaybackFlight.swift:225-236 | The lower loop finds the greatest keyframe index not above the target, or -1. |
| PlaybackFlight.UpperKeyframe | submodules/TelegramUniversalVideoContent/FairyTurtle_Level_1/Sources/FTPlaybackManager/FTPlaybackFlight.swift:238-246 | The upper loop finds the least keyframe index not below the target, or the frame count. |
| PlaybackFlight.ResolveKeyframe | submodules/TelegramUniversalVideoContent/FairyTurtle_Level_1/Sources/FTPlaybackManager/FTPlaybackFlight.swift:225-254 | A target at or past the end spins forever in the lower loop. A negative target indexes out of bounds. Otherwise the chosen key index is within the frames. |
| PlaybackFlight.ResolveKeyframeNearest | submodules/TelegramUniversalVideoContent/FairyTurtle_Level_1/Sources/FTPlaybackManager/FTPlaybackFlight.swift:248-254 | With keyframes on both sides, the chosen frame is a keyframe nearest the target, and a tie goes to the later one. |
| PlaybackFlight.KeyframeTieGoesUp | submodules/TelegramUniversalVideoContent/FairyTurtle_Level_1/Sources/FTPlaybackManager/FTPlaybackFlight.swift:249-253 | With keyframes at 0, 30 and 60 and target 45, frame 60 is chosen. |
| PlaybackFlight.NoLowerKeyframeStartsAtZero | submodules/TelegramUniversalVideoContent/FairyTurtle_Level_1/Sources/FTPlaybackManager/FTPlaybackFlight.swift:249-250 | With no keyframe at or before the target, `max(0, -1)` can start the commit at frame 0, which is not a keyframe. |
| PlaybackFlight.TargetIndex | submodules/TelegramUniversalVideoContent/FairyTurtle_Level_1/Sources/FTPlaybackManager/FTPlaybackFlight.swift:222 | `Int(Double(fps) * percentage)` truncates toward zero. |
| PlaybackFlight.EndBatch | submodules/TelegramUniversalVideoContent/FairyTurtle_Level_1/Sources/FTPlaybackManager/FTPlaybackFlight.swift:216-265 | For another batch nothing happens. For the seek's batch it completes exactly when the keyframe search does: it commits the frames from the chosen key onward, the first forced, and clears the seek. |
| PlaybackFlight.EndBatchCommits | submodules/TelegramUniversalVideoContent/FairyTurtle_Level_1/Sources/FTPlaybackManager/FTPlaybackFlight.swift:216-265 | A resolved seek presents the frames from the keyframe onward in order: the keyframe at the entry index, then the rest numbered from 0 after a second restart. |
| PlaybackManager.Enqueue | submodules/TelegramUniversalVideoContent/FairyTurtle_Level_1/Sources/FTPlaybackManager/FTPlaybackManager.swift:164-175 | A `shouldFlush` frame leaves the deque as exactly that frame. Any other frame is appended at the end. |
| PlaybackManager.EnqueueAll | submodules/TelegramUniversalVideoContent/FairyTurtle_Level_1/Sources/FTPlaybackManager/FTPlaybackManager.swift:170-174 | Queueing a run of frames leaves the frames from the last flushing one onward. Without one, it leaves the old deque followed by all the frames. |
| PlaybackManager.Drain | submodules/TelegramUniversalVideoContent/FairyTurtle_Level_1/Sources/FTPlaybackManager/FTPlaybackManager.swift:135-144 | The drain hands over the longest prefix for which the layer reports ready, in order, and stops at the first not-ready check. `nextPreloadTime` becomes the last drained frame's `segmentEndtime`, or stays unchanged when nothing is drained. |
| PlaybackManager.DrainManager | submodules/TelegramUniversalVideoContent/FairyTurtle_Level_1/Sources/FTPlaybackManager/FTPlaybackManager.swift:125-145 | Without a layer nothing happens. Otherwise only the deque and `nextPreloadTime` change, as the drain says. |
| PlaybackManager.Tick | submodules/TelegramUniversalVideoContent/FairyTurtle_Level_1/Sources/FTPlaybackManager/FTPlaybackManager.swift:113-123 | A tick first runs `preloadMore(now: nextPreloadTime)`, and schedules a drain exactly when the deque is non-empty. |
| PlaybackManager.AvailableQualities | submodules/TelegramUniversalVideoContent/FairyTurtle_Level_1/Sources/FTPlaybackManager/FTPlaybackManager.swift:83-90 | The qualities of the available playlists, in order, or empty without a master. |
| PlaybackManager.AvailableQualitiesAllLoaded | submodules/TelegramUniversalVideoContent/FairyTurtle_Level_1/Sources/FTPlaybackManager/FTPlaybackManager.swift:83-90 | When every child is loaded, the qualities are the children's, in order. |
| PlaybackManager.SetQuality | submodules/TelegramUniversalVideoContent/FairyTurtle_Level_1/Sources/FTPlaybackManager/FTPlaybackManager.swift:92-99 | Only the flight changes. The seek and the frame index are kept. |
| PlaybackManager.SetQualityNoneIsZero | submodules/TelegramUniversalVideoContent/FairyTurtle_Level_1/Sources/FTPlaybackManager/FTPlaybackManager.swift:92-99 | `setQuality(nil)` is `setQuality(0)`. |
| PlaybackManager.SetQualityBinds | submodules/TelegramUniversalVideoContent/FairyTurtle_Level_1/Sources/FTPlaybackManager/FTPlaybackManager.swift:92-99 | Once playing, `setQuality(v)` binds the stream chosen for `v`, or for 0 when no value is given. |

### Behaviour of the code worth knowing

- **First frame after a seek.** The first frame committed after a seek keeps the flight's current index. Only then is the counter forced to 0, so the second frame is presented at 0 and triggers a second presentation restart. `PlaybackFlight.CommitAllForced` and `PlaybackFlight.EndBatchCommits` state this.
- **Keyframe ties.** The keyframe search compares with a strict `<`. With keyframes at 0, 30 and 60 and target 45, it picks the later keyframe, 60 (`PlaybackFlight.KeyframeTieGoesUp`).
- **Pending stream at end of input.** A STREAM-INF tag still pending when the master playlist ends is dropped, because the loop ends without a final flush (`MasterPlaylistParser.ParseCount`).
- **Batch identifier.** The provider's batches carry no identifier, but the flight matches deliveries and frames against one. The model passes it through as an opaque parameter.
- **Reversed byte ranges.** A MAP tag with a URI and a negative BYTERANGE length builds a reversed Swift `Range`, and that traps. A negative length left for the next segment traps the same way. The model's parse result is then `Trap` (`MediaPlaylistParser.Parse`).

## Left out

- VUI parsing (`vui_parameters`) and the frame rate derived from it are not modelled. They are floating-point work, and any undefined behaviour inside them is not modelled either. The model parses up to the VUI flag and stops.
- `malloc`, `free` and `printf` in the SPS parser are not modelled. The copy is a value, so a failing `malloc` (unchecked in the C) is not modelled.
- `scaling_list()` bodies are not parsed, as in the C: only the list flags are read.
- Line scanning with `Scanner` is not modelled: the playlists' content is given as its lines.
- `NSRegularExpression` attribute matching is a parameter (`AttributeMatcher`). The `#EXT-X-BYTERANGE` and `#EXTINF` patterns are modelled as regular expressions over characters.
- FindByteRange: the Swift code builds each search range from `tag.count`, a count of Characters, while `NSRegularExpression` counts UTF-16 units. On tags with non-ASCII text the two differ: for `#EXT-X-BYTERANGE:😀100@20` the emoji takes two units, so the search range ends one unit short and the match gives the offset `2` rather than `20`. The model searches by characters, so it matches the code only on ASCII tags. The same holds for the `#EXTINF` and `#EXT-X-MAP` ranges.
- URL resolution is symbolic (`Url.Resolved`). Foundation's URL rules are not modelled.
- `Int64`/`Int` overflow and the saturation of `integerValue` are not modelled: integers are unbounded in the Swift part.
- `TimeInterval` is modelled as exact reals. Rounding is not modelled.
- `OperationQueue`, download operations, cancellation and operation dependencies are not modelled. Each download's arrival and the ready completion are explicit events in their own functions.
- The container unpacker is a parameter (`extract`). Decoder output arrives as explicit frame and end-of-batch events, and audio callbacks are no-ops.
- CoreMedia is not modelled: a presentation time is the frame index numerator, with no timebases and no layer flush.
- The manager's `play`, `setSpeed`, test mode, display link, `asyncAfter` and locks are not modelled.
- The main-queue hop in the master prefetch is not modelled: its body runs inside `MasterPrefetch`.
- `currentHeight`, which the provider does not define, is not modelled.
- Eof compares with the unbounded `8 * |d|`. In the C code, `bs->size * 8` is computed in 32 bits and wraps once the size reaches `2^29` bytes. Such inputs are far beyond any SPS, and the wrap is not modelled.
- SortStreams is the insertion sort that Swift's `sort` uses for fewer than 64 elements. For 64 or more streams, Swift detects runs and merges them. Since the comparator is not a strict weak ordering, that path can give a different order, and it is not modelled.
- ChildLoaded lets any child's download arrive at any time. In the code the other children are only prefetched inside the active child's completion (`FTMasterPlaylist.swift` lines 109-115), so the model admits more event orders than the code produces. Its contracts hold for all of them.
- The content downloader and the UI are outside the model.
- CountZeros bounds its result only. The exact count is in `CountZerosRun` and `CountZerosReaches`.
- HighProfileFields states only that the index moves forward. The undefined case is stated by `ScalingMatrix`.
- ReadCrop states only the first offset exactly. The others are bounded by `CropRead`.
- ReadSyntax states profile, level and the default chroma. The other fields are only bounded. The cropped size is stated by `Dimensions`.
- ParseSps states `level_idc` only for input without emulation-prevention bytes. With them the rescan can move byte 3, as the finding below shows.
- ParseSpsCorrected states only its rejection cases in its own contract. Its content is stated by `CorrectedParsesPayload` and `AgreeWithoutEscapes`.
- IntegerValue states the value of all-digit strings and of the empty string only. Leading white space, a sign and trailing text are handled by the definition but not stated.
- DecimalValue states non-negativity and the value of all-digit tokens only. Fractional digits are left to the definition.
- TrimQuotes states that no quote remains at either end and that unquoted text is unchanged. It does not state that the result is a substring.
- ChooseStream states only that the choice is available. The ranking is stated by `HighestAtMost`, `Lowest` and `ActivateStreamChoice`.
- PreloadNext returns `None` only when the range construction would trap. `NeverTraps` shows that cannot happen on a parsed timeline.
- Drain treats the layer's `isReadyForMoreMediaData` as an oracle indexed by the number of frames already handed over.
- FeedSegments states the flight's unchanged fields and the batch id only. The content of the feeds is in `FeedSegmentsFeeds`.

## Findings

| source | as written | input that shows it | evidently intended | confidence | as-written member | corrected member |
|---|---|---|---|---|---|---|
| submodules/TelegramUniversalVideoContent/FairyTurtle_Level_2/Sources/ThirdParty/h264_sps_parse/h264_sps_parse.c:80-89 | `del_emulation_prevention` removes each `03` in place and keeps scanning the shifted buffer, so bytes it has already produced are examined again | `67 00 00 03 00 03`, the escaped form of the payload `67 00 00 00 03`: the routine returns `67 00 00 00` | remove each `00 00 03`'s `03` and resume after it (section 7.3.1 of ITU-T H.264), returning `67 00 00 00 03` | not executed | EmulationPrevention.RescanDropsPayload | EmulationPrevention.UnescapeEscape |

The corrected removal is `EmulationPrevention.Unescape`. `EmulationPrevention.UnescapeEscape` proves that it inverts the section 7.4.1 insertion for every payload. `Sps.ParseSpsCorrected` uses it, and `Sps.CorrectedParsesPayload` proves that every escaped payload then parses exactly as the payload itself. `EmulationPrevention.DelEmulationPreventionUnescapes` proves that the routine and the corrected removal agree on every input without `00 00 03 00 03`, so they can differ only on input containing that pattern.
