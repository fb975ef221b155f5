# m_wc counting core in Dafny

This project models the counting core of `m_wc`, a `wc`-like command-line
tool. The core is `DataStats::get_stats`. It reads a byte stream through a
1024-byte buffer and counts four things: bytes, words, lines and Unicode
characters. The model also covers the small record types of the `dao`
module that carry the result.

- `results.dfy` (module `Results`) holds the `Result` and `Option` datatypes.
- `utf8.dfy` (module `Utf8`) restates, from RFC 3629, what the loop relies
  on in Rust's standard library:
  - `Valid` says which byte sequences are well-formed UTF-8 (section 4 of
    RFC 3629);
  - `ValidUpTo` is the length of the longest well-formed prefix;
  - `Decode`/`Encode` map bytes to scalar values and back;
  - `FromUtf8` models `std::str::from_utf8` together with
    `Utf8Error::valid_up_to`.
- `counts.dfy` (module `Counts`) gives the specification of the four
  counters over a whole stream (`StreamStats`). It is independent of how
  the stream was cut into reads.
- `dao.dfy` (module `Dao`) holds `Stats`, `StatErrors`, `DataSource`, and
  the `FileStats`/`StdInStats` wrappers.
- `file_stats.dfy` (module `FileStats`) holds the loop itself:
  - `Reader` stands in for the `&mut dyn Read` source;
  - `StatsAccumulator` keeps the loop's mutable state: the counters, `rem`,
    `word_active` and `empty`;
  - `GetStats` is the read loop. It is proved to return
    `StreamStats` of everything read, or the read error.

The central result is `FileStats.GetStats`. A stream of any length, cut
into reads of any sizes from 1 to 1024 bytes, gives the following:
- `bytes` is the stream's length;
- `lines` is the number of 0x0A bytes, or 1 for a non-empty stream without
  one;
- `words` is the number of maximal runs of bytes that are not ASCII
  whitespace;
- `chars` is the number of code points in the longest well-formed UTF-8
  prefix.

The accumulator's invariant ties every counter, and the carried remainder
`rem`, to the bytes consumed so far.

## Model

| member | source | states |
|---|---|---|
| FileStats.GetStats | src/file_stats/mod.rs:10-100 | Reads the source to its end. Returns `Err` if a read fails, and otherwise the stream counters of exactly the bytes read, however the stream was cut into reads |
| FileStats.Reader.Read | src/file_stats/mod.rs:41 | A read copies the next chunk into the front of the buffer and returns its length. At end of stream it returns 0 or the error |
| FileStats.StatsAccumulator.constructor | src/file_stats/mod.rs:11-20 | The initial state (zero counters, empty `rem`, `word_active` false, `empty` true) satisfies the invariant for an empty stream |
| FileStats.StatsAccumulator.Feed | src/file_stats/mod.rs:60-92 | One pass for a non-empty read keeps the invariant: counters, `rem`, `word_active` and `empty` all describe the bytes read so far plus the new chunk |
| FileStats.StatsAccumulator.CountLinesAndWords | src/file_stats/mod.rs:63-76 | The per-byte loop leaves the line count, word count and `word_active` equal to their specifications over the extended stream |
| FileStats.StatsAccumulator.DecodeChunk | src/file_stats/mod.rs:78-92 | Decoding `rem` plus the chunk adds exactly the new characters of the longest valid prefix and carries what follows it. `rem` is cleared exactly when `rem` plus the chunk is valid UTF-8 |
| FileStats.StatsAccumulator.Finish | src/file_stats/mod.rs:44-57 | At end of stream the state yields exactly `StreamStats` of all bytes read, including the one-line rule of lines 95-97. The returned record is the accumulator's final counters, and only the line and character counters change |
| FileStats.StatsAccumulator.RemainderStaysSmall | src/file_stats/mod.rs:90 | While the bytes read so far can still be completed to valid UTF-8, the carried remainder holds at most 3 bytes |
| FileStats.ErroneousPartCount | src/file_stats/mod.rs:24-35 | Called with the error `from_utf8` reported for `rem`, the closure returns the character count of `rem`: the code points of its longest valid prefix |
| FileStats.ErroneousPartCountOfError | src/file_stats/mod.rs:24-35 | Given the error `from_utf8` reported, the closure's slice always decodes, so its `Err` branch is unreachable. It returns the code-point count of the longest valid prefix |
| FileStats.FeedDecodeStep | src/file_stats/mod.rs:78-92 | Re-decoding only `rem` plus the new chunk gives the same remainder and character count as decoding the whole stream |
| FileStats.FinalRemainderAddsNothing | src/file_stats/mod.rs:46-55 | A non-empty final `rem` never starts with a valid character. `from_utf8` fails on it with `valid_up_to` 0 and it adds no characters |
| FileStats.SplitCharacter | src/file_stats/mod.rs:78-92 | U+20AC split over two reads counts as 3 bytes, 1 word, 1 line and 1 character |
| FileStats.FailingRead | src/file_stats/mod.rs:41 | A read error after some data makes `get_stats` return the error and no counters |
| Counts.IsAsciiWhitespace | src/file_stats/mod.rs:68 | `u8::is_ascii_whitespace` holds exactly for 0x09, 0x0A, 0x0C, 0x0D and 0x20 |
| Counts.VerticalTabInWord | src/file_stats/mod.rs:68-75 | Vertical tab (0x0B) is not whitespace, so "a", VT, "b" counts as one word |
| Counts.LinesOfStream | src/file_stats/mod.rs:64-66 | The line count is the multiplicity of 0x0A, or 1 for a non-empty stream without one (lines 95-97) |
| Counts.NewlineCountIsMultiplicity | src/file_stats/mod.rs:64-66 | The count of `b'\n'` bytes equals their multiplicity in the stream |
| Counts.NewlineCountAppend | src/file_stats/mod.rs:63-66 | Line feeds of consecutive reads add up |
| Counts.WordCountIsRuns | src/file_stats/mod.rs:68-75 | The flag-driven word count equals the number of maximal non-whitespace runs |
| Counts.WordCountAppend | src/file_stats/mod.rs:68-75 | Word counts of consecutive reads add up, less one when a word runs across the boundary |
| Counts.CharCountIsDecodedLength | src/file_stats/mod.rs:81-91 | The character count is the number of code points the longest valid UTF-8 prefix decodes to |
| Counts.CharsOfValidStream | src/file_stats/mod.rs:81-85 | For a valid UTF-8 stream the character count is its full code-point count, which is its number of non-continuation bytes |
| Counts.CharsStopAtMalformed | src/file_stats/mod.rs:87-91 | After a malformed byte, later bytes never add characters |
| Counts.EmptyStream | src/file_stats/mod.rs:11-16 | An empty stream yields all-zero counters, equal to `Stats::new()` |
| Counts.AsciiStream | src/file_stats/mod.rs:81-85 | A pure-ASCII stream is valid and has one character per byte |
| Utf8.FromUtf8 | src/file_stats/mod.rs:81 | `from_utf8` succeeds exactly on valid input and returns its decoding. On failure `valid_up_to` is the length of the longest valid prefix |
| Utf8.ValidUpToIsLongest | src/file_stats/mod.rs:88 | No prefix longer than `valid_up_to` is valid UTF-8 |
| Utf8.ValidIffScanCompletes | src/file_stats/mod.rs:81-84 | A sequence is valid exactly when its longest valid prefix is all of it |
| Utf8.ValidUpToResume | src/file_stats/mod.rs:78-90 | Decoding `s + t` agrees with decoding `s`'s remainder followed by `t` |
| Utf8.NoResumeAfterMalformed | src/file_stats/mod.rs:87-90 | Once a malformed sequence is met, appending bytes does not extend the valid prefix |
| Utf8.RemainderBound | src/file_stats/mod.rs:90 | The remainder after the valid prefix of a still-completable stream is at most 3 bytes |
| Utf8.DecodeEncode | src/file_stats/mod.rs:83 | Encoding scalar values gives valid UTF-8 that decodes back to them |
| Utf8.EncodeDecode | src/file_stats/mod.rs:83 | Decoding valid UTF-8 and re-encoding gives back the bytes |
| Utf8.DecodeAppend | src/file_stats/mod.rs:78-83 | Decoding two valid sequences joined is joining their decodings |
| Utf8.CharCountIsLeadByteCount | src/file_stats/mod.rs:29 | `chars().count()` of valid UTF-8 equals its number of non-continuation bytes |
| Utf8.LeadByteCountAppend | src/file_stats/mod.rs:83 | Non-continuation byte counts of joined sequences add up |
| Dao.Stats.New | src/dao/mod.rs:11-19 | Every counter is 0 |
| Dao.StatErrors.New | src/dao/mod.rs:47-54 | No counter has an error |
| Dao.StatErrors.NewAllFieldsErrors | src/dao/mod.rs:30-45 | Every counter has an error message naming that counter, and the four messages are distinct |
| Dao.ErrorMessage | src/dao/mod.rs:32-43 | The message is the fixed prefix, the counter's name and the fixed suffix |
| Dao.DataSource.SourceStats | src/dao/mod.rs:63-68 | Returns the counters of whichever source (file or standard input) this is |

## Left out

- The command-line front end in `src/main.rs` (argument parsing, output formatting) is not part of this model.
- `FileStats::new` (src/file_stats/mod.rs:114-152) is left out, because it is file I/O. It opens the file and reads it with `get_stats`. When the open fails, every counter is marked as an error. When the read fails, it queries `file.metadata()`. It then reports the file's length as the byte count, with only the byte counter error-free; if the metadata query fails too, every counter is marked as an error. Only its result record is modelled.
- `StdInStats::new` (src/file_stats/mod.rs:158-173) is left out, because it reads standard input. It reads standard input with `get_stats`. On a read error it prints the error and returns `Stats::new()`, with every counter marked as an error. It queries no metadata. Only its result record is modelled.
- The `FileStats` and `StdInStats` records are defined in src/file_stats/mod.rs:103-109. The model declares them in module `Dao`, next to `DataSource`, which wraps them. Declaring them in module `FileStats` would make `Dao` and `FileStats` import each other, and Dafny refuses cyclic module imports.
- The `BufReader` wrapper is left out. The source is modelled as a sequence of chunks of 1 to 1024 bytes, each of which is one read's result. A read error is modelled only after the chunks are used up; an error in the middle of the stream is equivalent for the result, which is the error either way.
- The `eprintln!` in the closure's `Err` branch is left out. That branch is proved unreachable.
- FileStats.GetStats: does not model `usize` overflow of the counters, which are `nat`; reaching it takes 2^64 bytes on a 64-bit target but only 2^32 bytes on a 32-bit target, which a long standard-input stream can reach.
- Utf8.FromUtf8: models `std::str::from_utf8` from RFC 3629 rather than from the library's code, and keeps only `valid_up_to` of `Utf8Error` (not `error_len`).

## Follows the code

- The code treats vertical tab (0x0B) as a word byte, because Rust's `is_ascii_whitespace` excludes it. The model does the same (`Counts.VerticalTabInWord`).
- Decoding does not resume after a malformed byte. Once one is met, the carried `rem` grows with every read and no later character is counted. The model follows the code (`Counts.CharsStopAtMalformed`), so `rem` is bounded by 3 bytes only while the stream is still completable (`StatsAccumulator.RemainderStaysSmall`).
- The end-of-stream decoding of `rem` (src/file_stats/mod.rs:46-55) is modelled as written. It is proved to add nothing (`FileStats.FinalRemainderAddsNothing`).
