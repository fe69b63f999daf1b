# television preview core in Dafny

This project models two parts of the `television` fuzzy finder.

The first is the UTF-8-safe string toolkit in `television-utils`. It covers:

- char-boundary search, forwards and backwards;
- slicing that widens a byte range outward to char boundaries;
- the best-effort sanitizer that turns arbitrary bytes into terminal-safe text;
- the printable-ASCII proportion;
- line preprocessing;
- middle-ellipsis shrinking.

The second is the file previewer in `television-previewers`. It covers:

- the `preview` state machine over the preview cache;
- the deferred highlighting job that resolves a `Loading` entry;
- file-type classification;
- the plain-text preview.

## Modelling choices

- **Strings as bytes.** A Rust `&str` or `&[u8]` is a `seq<byte>`. `Utf8.ValidUtf8` is the UTF8-octets syntax of section 4 of RFC 3629, and it holds exactly when Rust's `str::from_utf8` succeeds. `Utf8.IsCharBoundary` is Rust's `str::is_char_boundary`: it is false past the end of the string.
- **Returned strings.** A returned Rust `String` is a Dafny `string` of scalar values. The exception is `shrink_with_ellipsis`, which builds its result from byte slices, so the model returns bytes there.
- **Any bytes accepted.** The string functions accept any bytes, including bytes that are not valid UTF-8. What validity guarantees is stated in `ValidUtf8(s) ==> …` clauses. Every Rust slice `&s[a..b]` goes through `Strings.StrSlice`, which demands char boundaries, so no modelled slice can panic.
- **Printable ratio.** The `f32` ratio is an exact `Strings.Ratio`. The test `ratio > 0.7` is written `10 * printable > 7 * total`. An empty buffer gives `0/0`, which behaves like the `NaN` it produces in Rust: it is never above the threshold.
- **Previewer state.** The previewer's state is `State(cache, pending)`. The spawned task is a separate, later `CompleteHighlightedTextPreview` step for a pending name. `preview` takes `&mut self`, so requests are sequential.
- **Abstract inputs.** The file system, the MIME sniffer, the known-extension table and the syntax highlighter are inputs:
  - a `Probe` is what `preview` observes of a file;
  - a sequence of `LineRead`s is what a line reader yields;
  - a `Highlighter` is a function value.
- **State invariant.** `FilePreviewer.Inv` says a name has a pending job exactly when it is cached as `Loading`.

Where the documentation and the code disagree, the model follows the code. The doc comment of `prev_char_boundary` (crates/television-utils/src/strings.rs:41) says an out-of-bounds index gives 0. The loop at lines 57-63 returns the length of the string instead, because no offset past the end is a char boundary. `Strings.PrevCharBoundary` states the code's behaviour.

## Model

| member | source | states |
|---|---|---|
| Strings.NextCharBoundary | crates/television-utils/src/strings.rs:26-36 | the length when `start` is out of bounds; otherwise the least char boundary at or after `start` (no offset in between is a boundary), and `start` itself when it is one |
| Strings.PrevCharBoundary | crates/television-utils/src/strings.rs:57-63 | the greatest char boundary at or before `start`, `start` itself when it is one, and the length of the string for any `start` past the end |
| Strings.SliceAtCharBoundaries | crates/television-utils/src/strings.rs:83-96 | empty when `start > end` or either index is out of bounds; otherwise `s[lo..hi]` with `lo <= start` and `end <= hi` the nearest boundaries outward; a slice of valid UTF-8 is valid UTF-8 |
| Strings.SliceUpToCharBoundary | crates/television-utils/src/strings.rs:119-121 | a prefix of `s` ending at a char boundary no earlier than `byteIndex` with no boundary in between, the whole string once `byteIndex` reaches its length, and valid when `s` is |
| Strings.SliceUpToCharBoundaryLength | crates/television-utils/src/strings.rs:119-121 | on valid UTF-8 the prefix keeps between `byteIndex` and `byteIndex + 3` bytes |
| Strings.NextCharBoundaryWithinThree | crates/television-utils/src/strings.rs:26-36 | in valid UTF-8 the next char boundary is at most three bytes ahead |
| Strings.PrevCharBoundaryWithinThree | crates/television-utils/src/strings.rs:57-63 | in valid UTF-8 the previous char boundary is at most three bytes back |
| Strings.TryParseUtf8Char | crates/television-utils/src/strings.rs:124-136 | trying the 1-, 2-, 3- and 4-byte prefixes succeeds exactly when the input starts with a well-formed char; it then consumes exactly that char's length and yields the char those bytes decode to |
| Strings.MapChar | crates/television-utils/src/strings.rs:193-217 | tab becomes `tab_width` spaces, LF and U+FEFF vanish, C0/C1 controls and anything above U+0700 become U+2400, other chars pass through; every output char is displayable |
| Strings.HexEscape | crates/television-utils/src/strings.rs:218-221 | a stray byte becomes four displayable chars `\xHH`, both H upper-case hexadecimal digits, which read back as the byte |
| Strings.ReplaceNonPrintable | crates/television-utils/src/strings.rs:184-225 | the decode loop terminates (each step consumes at least one byte) and the output contains no control char and nothing above U+0700 but U+2400 |
| Strings.ReplaceNonPrintableStep | crates/television-utils/src/strings.rs:189-217 | a loop step on a well-formed char emits that char's mapping and continues after its last byte |
| Strings.ReplaceNonPrintableEscapesStrayByte | crates/television-utils/src/strings.rs:218-221 | whenever no well-formed char starts the input (a byte that starts no char, or a lead byte with a missing or bad continuation), its first byte is escaped and the cursor advances by exactly one |
| Strings.ReplaceNonPrintableAppend | crates/television-utils/src/strings.rs:189-222 | sanitizing a valid string followed by anything is the concatenation of sanitizing each part: the decoder never reads across the end of a valid prefix |
| Strings.ReplaceNonPrintableKeepsDisplayable | crates/television-utils/src/strings.rs:193-217 | a string of displayable chars is read back unchanged from its UTF-8 bytes |
| Strings.ReplaceNonPrintableIdempotent | crates/television-utils/src/strings.rs:184-225 | sanitizing the UTF-8 bytes of a sanitized output gives that output again |
| Strings.ReplaceNonPrintableOnPrintableAscii | crates/television-utils/src/strings.rs:410-412 | on printable ASCII the sanitizer is the identity: same length, char `i` has the value of byte `i`, and the output encodes back to the input |
| Strings.ReplaceNonPrintableBom | crates/television-utils/src/strings.rs:209-210 | the byte order mark sanitizes to nothing |
| Strings.ReplaceNonPrintableDelete | crates/television-utils/src/strings.rs:203-208 | DEL sanitizes to U+2400 |
| Strings.CountPrintableAscii | crates/television-utils/src/strings.rs:254-259 | at most the length, equal to it exactly when every byte is in `[32, 127)`, and zero exactly when none is |
| Strings.CountPrintableAsciiAppend | crates/television-utils/src/strings.rs:254-259 | the count is additive over concatenation |
| Strings.ProportionOfPrintableAsciiCharacters | crates/television-utils/src/strings.rs:253-261 | the printable-byte count over the byte count: 1 on non-empty all-printable input, 0 when nothing is printable |
| Strings.TrimLineEnd | crates/television-utils/src/strings.rs:295 | the longest prefix not ending in CR, LF or NUL; everything removed is one of those bytes |
| Strings.TruncateLine | crates/television-utils/src/strings.rs:288-294 | a line of at most 300 bytes is kept; a longer one is cut at the first char boundary at or after byte 300, and a valid line keeps at most 303 bytes and stays valid |
| Strings.PreprocessLine | crates/television-utils/src/strings.rs:286-299 | the result is displayable (so, LF being a control character, it never contains a line feed) |
| Strings.PreprocessPrintableLine | crates/television-utils/src/strings.rs:478-483 | a printable-ASCII line comes back as its first 300 bytes (all of it when shorter), char for byte |
| Strings.PreprocessDropsTrailingLineEnd | crates/television-utils/src/strings.rs:479-480 | a trailing CR, LF or NUL is removed and does not appear |
| Strings.PreprocessShowsTrailingDelete | crates/television-utils/src/strings.rs:481 | a trailing DEL is not trimmed: it is shown as U+2400 after the rest of the line |
| Strings.PreprocessDropsTrailingBom | crates/television-utils/src/strings.rs:482 | a trailing byte order mark survives trimming but the sanitizer drops it |
| Strings.ShrinkWithEllipsis | crates/television-utils/src/strings.rs:315-325 | unchanged when it fits; otherwise `s[..p] + "…" + s[q..]` with `p` the next boundary at or after `half = max/2 - 2` (saturating) and `q` the previous boundary at or before `half` bytes from the end; valid input gives valid output at most `2 * half + 9` bytes long |
| Strings.EllipsisIsU2026 | crates/television-utils/src/strings.rs:324 | the bytes inserted are the UTF-8 encoding of U+2026 |
| Utf8.SplitValid | crates/television-utils/src/strings.rs:94-95 | cutting valid UTF-8 at a char boundary leaves two valid halves, which is why the boundary-widened slices are `&str`s |
| Utf8.ConcatValid | crates/television-utils/src/strings.rs:324 | concatenating valid UTF-8 strings is valid, which is why the `format!` of two slices around the ellipsis is a string |
| Utf8.DecodeEncodeChar | crates/television-utils/src/strings.rs:135 | decoding the UTF-8 bytes of a char gives the char back |
| Utf8.EncodeDecodeChar | crates/television-utils/src/strings.rs:135 | a well-formed char is the one encoding of the value it decodes to |
| StringsExamples.NextCharBoundaryExamples | crates/television-utils/src/strings.rs:336-350 | the boundaries the doc examples and unit tests expect on "Hello, World!" and "👋🌍!" |
| StringsExamples.PrevCharBoundaryExamples | crates/television-utils/src/strings.rs:362-375 | the previous boundaries the unit tests expect on both strings |
| StringsExamples.SliceAtCharBoundariesExamples | crates/television-utils/src/strings.rs:387-402 | the slices the unit tests expect, including the empty result for an end past the string |
| StringsExamples.ShrinkWithEllipsisExamples | crates/television-utils/src/strings.rs:311-313 | "Hello, World!" fits in 13 bytes and shrinks to "H…!" for 6 |
| StringsExamples.PreprocessLineOfRepeatedA | crates/television-utils/src/strings.rs:483 | 400 copies of 'a' preprocess to exactly 300 |
| StringsExamples.ProportionOfPrintableAsciiHello | crates/television-utils/src/strings.rs:241-243 | "Hello, World!" is 13/13 printable |
| StringsExamples.ProportionOfPrintableAsciiHelloNul | crates/television-utils/src/strings.rs:245-247 | with a trailing NUL it is 13/14, above the 0.7 threshold |
| StringsExamples.ProportionOfPrintableAsciiControls | crates/television-utils/src/strings.rs:249-251 | the sixteen controls 0x00-0x0F are 0/16, not above the threshold |
| FilePreviewer.MimeFileType | crates/television-previewers/src/previewers/files.rs:234-246 | "image" anywhere in the MIME type gives Image, checked before "text", which gives Text; another type gives Other; no type gives Unknown |
| FilePreviewer.GetFileType | crates/television-previewers/src/previewers/files.rs:232-268 | a sniffed type is never overridden; with none, Text exactly when the extension is known or the sample is non-empty and more than 70% printable, Unknown otherwise |
| FilePreviewer.FallbackFollowsPrintableCount | crates/television-previewers/src/previewers/files.rs:248-264 | with nothing sniffed and no known extension the file is text exactly when `10 * printable > 7 * sampled`; an all-printable sample is text and a sample without a printable byte is not |
| FilePreviewer.CachePreview | crates/television-previewers/src/previewers/files.rs:270-272 | an upsert of one key: the key maps to the new preview and every other entry and the pending set are unchanged |
| FilePreviewer.CacheLatestInsertWins | crates/television-previewers/src/previewers/files.rs:270-272 | after any run of inserts under other keys a lookup still gives what was last inserted under this key |
| FilePreviewer.IsTooLarge | crates/television-previewers/src/previewers/files.rs:86 | the size gate passes exactly the files whose size cannot be read or is at most `MAX_FILE_SIZE` = 4 MiB (files.rs:230); only a size strictly above it is too large |
| FilePreviewer.ScheduleHighlight | crates/television-previewers/src/previewers/files.rs:112-113 | scheduling the background job for a name touches no cache entry and adds exactly that name to the pending jobs |
| FilePreviewer.Preview | crates/television-previewers/src/previewers/files.rs:76-151 | a hit returns the cached preview and changes nothing; a miss caches exactly the returned preview under the entry's name: FileTooLarge exactly above 4 MiB (an unreadable size is not too large), Loading with a job scheduled exactly for a text file that opens, NotSupported otherwise |
| FilePreviewer.HighlightInput | crates/television-previewers/src/previewers/files.rs:189-195 | the lines before the first read error, each preprocessed and followed by "\n" |
| FilePreviewer.CompleteHighlightedTextPreview | crates/television-previewers/src/previewers/files.rs:197-224 | the entry becomes the highlighted text, or NotSupported when highlighting fails, never Loading; the job is retired and no other entry changes |
| FilePreviewer.PreviewKeepsInv | crates/television-previewers/src/previewers/files.rs:97-114 | a request keeps "pending exactly when cached as Loading", because Loading is cached in the same step that schedules the job |
| FilePreviewer.CompleteKeepsInv | crates/television-previewers/src/previewers/files.rs:197-224 | a completion keeps the invariant: the Loading entry is resolved as its job retires |
| FilePreviewer.SecondRequestIsCacheHit | crates/television-previewers/src/previewers/files.rs:79-82 | a second request for a name returns what the first returned, schedules nothing and changes nothing |
| FilePreviewer.TerminalEntriesAreFinal | crates/television-previewers/src/previewers/files.rs:79-82 | an entry that is not Loading is changed by neither a request nor a completion |
| FilePreviewer.RunKeepsInv | crates/television-previewers/src/previewers/files.rs:76-151 | every state reached by any sequence of requests and completions keeps the invariant |
| FilePreviewer.RunSchedulesAtMostOnce | crates/television-previewers/src/previewers/files.rs:97-114 | over any run at most one highlighting job is scheduled per name, and none for a name already cached |
| FilePreviewer.PlainTextLineCount | crates/television-previewers/src/previewers/files.rs:286 | at most 200 lines, and fewer only when there are fewer lines |
| FilePreviewer.PlainTextPreview | crates/television-previewers/src/previewers/files.rs:288-310 | NotSupported only if one of the first 200 reads fails; otherwise exactly those lines, each preprocessed |
| FilePreviewer.SmallTextFileScenario | crates/television-previewers/src/previewers/files.rs:97-224 | a small printable file: Loading and one job, then after completion a cache hit holding the highlighted line |
| FilePreviewer.LargeFileScenario | crates/television-previewers/src/previewers/files.rs:85-93 | a 5 MiB file is answered FileTooLarge at once, with no job |
| FilePreviewer.BinaryFileScenario | crates/television-previewers/src/previewers/files.rs:136-149 | an unsniffed file with no known extension whose sample is at most 70% printable is answered NotSupported, with no job |

## Left out

- `FilePreviewer::new` (crates/television-previewers/src/previewers/files.rs:49-70) loads the syntect syntax set and theme. That is configuration of a foreign library, so the highlighter is a function parameter.
- The file system is left out. `File::open`, `read`, `seek` and `get_file_size` are inputs in `Probe`, and `BufReader::lines` is an input sequence of `LineRead`s. The panic of the `unwrap` on `seek` is not modelled.
- MIME sniffing and the extension table are inputs. The sniffed type is `Probe.mime` and the known-extension test is `Probe.knownTextExtension`.
- `tokio::spawn` and the `Mutex` around the cache are left out. The job runs as a separate, later sequential step, so interleavings inside one step are not modelled. A `Finish` event for a name with no pending job does nothing in `FilePreviewer.Run`.
- FilePreviewer.CachePreview: the preview cache is modelled as an unbounded map with a plain upsert and no eviction. `cache_preview` (files.rs:270-272) only forwards to `PreviewCache::insert` (from `super::cache`, imported at files.rs:16), which is not part of this model; its real implementation may differ, for example by evicting entries. `FilePreviewer.CacheLatestInsertWins`, `FilePreviewer.TerminalEntriesAreFinal` and `FilePreviewer.RunSchedulesAtMostOnce` rest on that contract: a cache that dropped entries could schedule a second job for a name.
- Every preview also carries a title, the entry's name. It is built by code that is not part of this model, and only the content is modelled.
- The image branch returns NotSupported, because its rendering code is commented out. Logging is left out as well.
- Strings.ProportionOfPrintableAsciiCharacters: returns an exact fraction rather than an `f32`. The previewer compares a ratio of at most 256 bytes against 0.7, and `f32` rounding cannot move such a ratio across 0.7. The unit test's printed value 0.9285714 is therefore stated as 13/14.
- Strings.TrimLineEnd: works on bytes, not chars. CR, LF and NUL are single-byte chars that never occur inside a multi-byte encoding, so the result is the same.
- Some unit tests and doc examples are not restated as concrete examples: the tab, newline, null, delete, byte-order-mark and start-of-text cases of `replace_non_printable` (crates/television-utils/src/strings.rs:414-447), and the examples in its doc comment (lines 164-182). Their content is covered by the general lemmas: `Strings.MapChar`, `Strings.ReplaceNonPrintableAppend`, `Strings.ReplaceNonPrintableOnPrintableAscii`, `Strings.PreprocessShowsTrailingDelete` and `Strings.PreprocessDropsTrailingLineEnd`.
- The UI code that calls these string functions, the action enum and the UI configuration are not part of this model.
