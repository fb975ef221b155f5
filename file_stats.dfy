/** The streaming counter `DataStats::get_stats`: it reads a byte source
    through a fixed 1024-byte buffer and keeps the byte, word, line and
    character counters up to date read by read, carrying an incomplete UTF-8
    sequence over from one read to the next. */
module FileStats {
  import opened Results
  import opened Utf8
  import opened Counts
  import Dao

  /** Size of the read buffer. */
  const BufferSize: nat := 1024

  /** The failure a read reports (Rust's `std::io::Error`). */
  datatype ReadError = ReadError

  /** The bytes of reads `lo` to `hi - 1`, one after another. */
  function Concat(chunks: seq<seq<Byte>>, lo: nat, hi: nat): seq<Byte>
    requires lo <= hi <= |chunks|
    decreases hi
  {
    if lo == hi then [] else Concat(chunks, lo, hi - 1) + chunks[hi - 1]
  }

  /** A byte source (`&mut dyn Read` behind a `BufReader`). Each successful
      read yields the next chunk, of 1 to 1024 bytes; once the chunks are
      used up every read reports end of stream (0 bytes) or, if `fails`,
      an error. */
  class Reader {
    const chunks: seq<seq<Byte>>
    const fails: bool
    var pos: nat

    ghost predicate Valid()
      reads this
    {
      && pos <= |chunks|
      && forall i | 0 <= i < |chunks| :: 0 < |chunks[i]| <= BufferSize
    }

    constructor (chunks: seq<seq<Byte>>, fails: bool)
      requires forall i | 0 <= i < |chunks| :: 0 < |chunks[i]| <= BufferSize
      ensures Valid() && pos == 0
      ensures this.chunks == chunks && this.fails == fails
    {
      this.chunks := chunks;
      this.fails := fails;
      pos := 0;
    }

    /** `Read::read`: fills the front of `buf` and says how many bytes it put there. */
    method Read(buf: array<Byte>) returns (r: Result<nat, ReadError>)
      requires Valid() && BufferSize <= buf.Length
      modifies this, buf
      ensures Valid()
      ensures old(pos) < |chunks| ==>
        && r == Ok(|chunks[old(pos)]|)
        && buf[..r.value] == chunks[old(pos)]
        && pos == old(pos) + 1
      ensures old(pos) == |chunks| ==>
        && pos == old(pos)
        && r == if fails then Err(ReadError) else Ok(0)
    {
      if pos < |chunks| {
        var chunk := chunks[pos];
        forall i | 0 <= i < |chunk| {
          buf[i] := chunk[i];
        }
        r := Ok(|chunk|);
        pos := pos + 1;
      } else if fails {
        r := Err(ReadError);
      } else {
        r := Ok(0);
      }
    }
  }

  /** The closure `get_erroneous_part_count`: the number of characters in
      the part of `rem` that `err` reports valid, or 0 if that part does not
      decode. */
  function ErroneousPartCount(err: Utf8Error, rem: seq<Byte>): (r: nat)
    requires err.validUpTo <= |rem|
    ensures FromUtf8(rem) == Err(err) ==> r == CharCount(rem)
  {
    ValidUpToIsValid(rem);
    match FromUtf8(rem[..err.validUpTo])
    case Ok(str) => CharCountIsLeadByteCount(rem[..err.validUpTo]); |str|
    case Err(_) => 0
  }

  /** Called, as in the loop, with the error `from_utf8` reported for `rem`,
      the closure's slice always decodes, so its `Err` branch is never
      taken; it returns the number of code points in the longest valid
      prefix of `rem`, which is the number of its non-continuation bytes. */
  lemma ErroneousPartCountOfError(err: Utf8Error, rem: seq<Byte>)
    requires FromUtf8(rem) == Err(err)
    ensures err.validUpTo == ValidUpTo(rem)
    ensures FromUtf8(rem[..err.validUpTo]).Ok?
    ensures ErroneousPartCount(err, rem) == CharCount(rem) == LeadByteCount(rem[..err.validUpTo])
  {
    ValidUpToIsValid(rem);
    CharCountIsLeadByteCount(rem[..err.validUpTo]);
  }

  /** One read as the loop decodes it: the characters decoded so far stay
      decoded, and the carried remainder followed by the new chunk adds its
      own characters. */
  lemma FeedDecodeStep(all: seq<Byte>, chunk: seq<Byte>)
    ensures var v := ValidUpTo(all);
            var rc := all[v..] + chunk;
            && (all + chunk)[ValidUpTo(all + chunk)..] == rc[ValidUpTo(rc)..]
            && CharCount(all + chunk) == CharCount(all) + CharCount(rc)
  {
    var v := ValidUpTo(all);
    var rc := all[v..] + chunk;
    ValidUpToResume(all, chunk);
    LeadByteCountAppend(all[..v], rc[..ValidUpTo(rc)]);
  }

  /** At end of stream the carried remainder never starts with a valid
      character, so the final `from_utf8(&rem)` always fails with
      `valid_up_to` 0 and adds no characters. */
  lemma FinalRemainderAddsNothing(s: seq<Byte>)
    ensures var rem := s[ValidUpTo(s)..];
            rem != [] ==>
              && FromUtf8(rem) == Err(Utf8Error(0))
              && ErroneousPartCount(Utf8Error(0), rem) == 0
  {
    var rem := s[ValidUpTo(s)..];
    RemainderIsStuck(s);
    ValidIffScanCompletes(rem);
    assert rem[..0] == [];
  }

  /** The state `get_stats` keeps between reads: the four counters, the
      bytes carried over for decoding (`rem`), whether the last byte was part
      of a word (`word_active`), whether nothing has been read yet (`empty`). */
  class StatsAccumulator {
    var bytesCount: nat
    var wordsCount: nat
    var linesCount: nat
    var charsCount: nat
    var rem: seq<Byte>
    var wordActive: bool
    var empty: bool
    /** Every byte read so far, in order. */
    ghost var consumed: seq<Byte>

    /** Each counter is its specification over the bytes read so far, and
        `rem` is what follows the longest valid UTF-8 prefix of them. */
    ghost predicate Valid()
      reads this
    {
      && bytesCount == |consumed|
      && linesCount == NewlineCount(consumed)
      && wordsCount == WordCount(consumed)
      && wordActive == InWord(consumed)
      && empty == (consumed == [])
      && rem == consumed[ValidUpTo(consumed)..]
      && charsCount == CharCount(consumed)
    }

    constructor ()
      ensures Valid() && consumed == []
    {
      bytesCount, wordsCount, linesCount, charsCount := 0, 0, 0, 0;
      rem := [];
      wordActive := false;
      empty := true;
      consumed := [];
    }

    /** While the bytes read so far can still be completed to valid UTF-8,
        the carried remainder holds at most 3 bytes. */
    lemma RemainderStaysSmall(rest: seq<Byte>)
      requires Valid() && Utf8.Valid(consumed + rest)
      ensures |rem| <= 3
    {
      RemainderBound(consumed, rest);
    }

    /** The byte-by-byte part of one pass: line feeds and word starts in
        the bytes of one read. */
    method CountLinesAndWords(chunk: seq<Byte>)
      requires linesCount == NewlineCount(consumed)
      requires wordsCount == WordCount(consumed)
      requires wordActive == InWord(consumed)
      modifies this`linesCount, this`wordsCount, this`wordActive
      ensures linesCount == NewlineCount(consumed + chunk)
      ensures wordsCount == WordCount(consumed + chunk)
      ensures wordActive == InWord(consumed + chunk)
    {
      assert consumed + chunk[..0] == consumed;
      for i := 0 to |chunk|
        invariant linesCount == NewlineCount(consumed + chunk[..i])
        invariant wordsCount == WordCount(consumed + chunk[..i])
        invariant wordActive == InWord(consumed + chunk[..i])
      {
        var b := chunk[i];
        ghost var next := consumed + chunk[..i + 1];
        assert next[..|next| - 1] == consumed + chunk[..i] && next[|next| - 1] == b;
        if b == Newline {
          linesCount := linesCount + 1;
        }
        if !IsAsciiWhitespace(b) {
          if !wordActive {
            wordsCount := wordsCount + 1;
            wordActive := true;
          }
        } else if wordActive {
          wordActive := false;
        }
      }
      assert chunk[..|chunk|] == chunk;
    }

    /** The decoding part of one pass: `rem` followed by the new bytes
        is decoded as far as it is valid UTF-8 and what is left is carried. */
    method DecodeChunk(chunk: seq<Byte>)
      requires rem == consumed[ValidUpTo(consumed)..]
      requires charsCount == CharCount(consumed)
      modifies this`charsCount, this`rem
      ensures rem == (consumed + chunk)[ValidUpTo(consumed + chunk)..]
      ensures charsCount == CharCount(consumed + chunk)
      ensures rem == [] <==> Utf8.Valid(old(rem) + chunk)
    {
      var remCopy := rem + chunk;
      FeedDecodeStep(consumed, chunk);
      ValidIffScanCompletes(remCopy);
      match FromUtf8(remCopy)
      case Ok(str) =>
        assert remCopy[..|remCopy|] == remCopy;
        CharCountIsLeadByteCount(remCopy);
        charsCount := charsCount + |str|;
        rem := [];
      case Err(err) =>
        var validUpTo := err.validUpTo;
        ErroneousPartCountOfError(err, remCopy);
        charsCount := charsCount + ErroneousPartCount(err, remCopy);
        rem := remCopy[validUpTo..];
    }

    /** One pass of the loop for a read that yielded the non-empty `chunk`
        (the first `n` bytes of the read buffer). */
    method Feed(chunk: seq<Byte>)
      requires Valid() && chunk != []
      modifies this
      ensures Valid()
      ensures consumed == old(consumed) + chunk
    {
      bytesCount := bytesCount + |chunk|;
      empty := false;
      CountLinesAndWords(chunk);
      DecodeChunk(chunk);
      consumed := consumed + chunk;
    }

    /** What the loop does once a read returns 0: decode what is left in
        `rem` on its own, then apply the one-line rule for a non-empty
        stream without a line feed. */
    method Finish() returns (stats: Dao.Stats)
      requires Valid()
      modifies this`charsCount, this`linesCount
      ensures stats == StreamStats(consumed)
      ensures stats == Dao.Stats(bytesCount, wordsCount, linesCount, charsCount)
    {
      if rem != [] {
        charsCount := charsCount + match FromUtf8(rem) {
          case Ok(str) => |str|
          case Err(err) => ErroneousPartCount(err, rem)
        };
        FinalRemainderAddsNothing(consumed);
      }
      if !empty && linesCount == 0 {
        linesCount := 1;
      }
      stats := Dao.Stats(bytesCount, wordsCount, linesCount, charsCount);
    }
  }

  /** `DataStats::get_stats`: read `source` to its end and return the
      counters of everything it yielded, or the read error. The result
      depends only on the bytes, not on how they were cut into reads. */
  method GetStats(source: Reader) returns (r: Result<Dao.Stats, ReadError>)
    requires source.Valid()
    modifies source
    ensures source.Valid() && source.pos == |source.chunks|
    ensures r == if source.fails then Err(ReadError)
                 else Ok(StreamStats(Concat(source.chunks, old(source.pos), |source.chunks|)))
  {
    var acc := new StatsAccumulator();
    var buffer := new Byte[BufferSize];
    ghost var start := source.pos;
    while true
      invariant source.Valid() && acc.Valid() && fresh(buffer)
      invariant start <= source.pos
      invariant acc.consumed == Concat(source.chunks, start, source.pos)
      decreases |source.chunks| - source.pos
    {
      ghost var p := source.pos;
      var read := source.Read(buffer);
      match read
      case Err(e) =>
        r := Err(e);
        return;
      case Ok(n) =>
        if n == 0 {
          var stats := acc.Finish();
          r := Ok(stats);
          return;
        }
        assert source.pos == p + 1;
        acc.Feed(buffer[..n]);
    }
  }

  /** The three bytes of U+20AC, split across two reads, still count as
      one character on one line in one word. */
  method SplitCharacter() returns (r: Result<Dao.Stats, ReadError>)
    ensures r == Ok(Dao.Stats(3, 1, 1, 1))
  {
    var source := new Reader([[0xE2], [0x82, 0xAC]], false);
    r := GetStats(source);
    var s: seq<Byte> := [0xE2, 0x82, 0xAC];
    assert Concat(source.chunks, 0, 2) == s;
    assert IsChar(s);
    assert s[..3] == s;
    assert Valid(s);
    CharsOfValidStream(s);
    assert s[1..] == [0x82, 0xAC];
    assert LeadByteCount(s) == 1;
    assert s[..2][..1] == [0xE2] && s[..2] == [0xE2, 0x82];
    assert NewlineCount(s) == 0;
    assert WordCount(s) == 1;
    assert StreamStats(s) == Dao.Stats(3, 1, 1, 1);
  }

  /** A read that fails after some data has been read: `get_stats`
      returns the error and no counters. */
  method FailingRead() returns (r: Result<Dao.Stats, ReadError>)
    ensures r == Err(ReadError)
  {
    var source := new Reader([[0x61, 0x0A]], true);
    r := GetStats(source);
  }
}
