/** What the four counters mean for a whole stream, independent of how it
    was cut into reads: the specification the streaming loop is proved
    against. */
module Counts {
  import opened Utf8
  import Dao

  /** The line terminator `b'\n'`. */
  const Newline: Byte := 0x0A

  /** Rust's `u8::is_ascii_whitespace`: space, tab, line feed, form feed and
      carriage return. Vertical tab (0x0B) is not among them. */
  predicate IsAsciiWhitespace(b: Byte): (r: bool)
    ensures r <==> b in {0x09, 0x0A, 0x0C, 0x0D, 0x20}
  {
    b == 0x20 || b == 0x09 || b == 0x0A || b == 0x0C || b == 0x0D
  }

  /** Number of line-feed bytes, counted from the front as the loop reads them. */
  function NewlineCount(s: seq<Byte>): nat {
    if s == [] then 0
    else NewlineCount(s[..|s| - 1]) + (if s[|s| - 1] == Newline then 1 else 0)
  }

  /** The line count of a finished stream: its line feeds, except that a
      non-empty stream without any counts as one line. */
  function LineCount(s: seq<Byte>): nat {
    var n := NewlineCount(s);
    if s != [] && n == 0 then 1 else n
  }

  /** The last byte read so far belongs to a word (the `word_active` flag). */
  predicate InWord(s: seq<Byte>) {
    s != [] && !IsAsciiWhitespace(s[|s| - 1])
  }

  /** Number of bytes that start a word: non-whitespace bytes that follow
      whitespace or the start of the stream. */
  function WordCount(s: seq<Byte>): nat {
    if s == [] then 0
    else
      var init := s[..|s| - 1];
      WordCount(init) + (if !IsAsciiWhitespace(s[|s| - 1]) && !InWord(init) then 1 else 0)
  }

  /** The number of characters in the longest valid UTF-8 prefix of `s`,
      counted as its bytes that are not continuation bytes; by
      `CharCountIsDecodedLength` this is the number of code points that
      prefix decodes to. */
  function CharCount(s: seq<Byte>): nat {
    LeadByteCount(s[..ValidUpTo(s)])
  }

  /** The counters a complete pass over the stream `s` yields. */
  function StreamStats(s: seq<Byte>): Dao.Stats {
    Dao.Stats(|s|, WordCount(s), LineCount(s), CharCount(s))
  }

  // ---------------------------------------------------------------------
  // Lines

  /** The newline count is the number of 0x0A bytes in the stream. */
  lemma {:induction false} NewlineCountIsMultiplicity(s: seq<Byte>)
    ensures NewlineCount(s) == multiset(s)[Newline]
  {
    if s != [] {
      var init := s[..|s| - 1];
      assert s == init + [s[|s| - 1]];
      NewlineCountIsMultiplicity(init);
    }
  }

  /** Line feeds in two consecutive reads add up. */
  lemma {:induction false} NewlineCountAppend(a: seq<Byte>, b: seq<Byte>)
    ensures NewlineCount(a + b) == NewlineCount(a) + NewlineCount(b)
    decreases |b|
  {
    if b == [] {
      assert a + b == a;
    } else {
      assert (a + b)[..|a + b| - 1] == a + b[..|b| - 1];
      NewlineCountAppend(a, b[..|b| - 1]);
    }
  }

  /** The reported line count: the number of 0x0A bytes, or 1 for a
      non-empty stream that has none. */
  lemma LinesOfStream(s: seq<Byte>)
    ensures StreamStats(s).linesCount
         == if s != [] && multiset(s)[Newline] == 0 then 1 else multiset(s)[Newline]
  {
    NewlineCountIsMultiplicity(s);
  }

  // ---------------------------------------------------------------------
  // Words

  /** `s` without its leading run of non-whitespace bytes. */
  function DropWord(s: seq<Byte>): (r: seq<Byte>)
    ensures |r| <= |s| && r == s[|s| - |r|..]
    ensures s != [] && !IsAsciiWhitespace(s[0]) ==> |r| < |s|
    ensures r != [] ==> IsAsciiWhitespace(r[0])
    ensures r == [] ==> forall i | 0 <= i < |s| :: !IsAsciiWhitespace(s[i])
  {
    if s == [] || IsAsciiWhitespace(s[0]) then s else DropWord(s[1..])
  }

  /** Reference definition: the number of maximal runs of non-whitespace
      bytes, found by skipping whitespace and then a whole word at a time. */
  function WordRuns(s: seq<Byte>): nat
    decreases |s|
  {
    if s == [] then 0
    else if IsAsciiWhitespace(s[0]) then WordRuns(s[1..])
    else 1 + WordRuns(DropWord(s))
  }

  lemma {:induction false} DropWordAppend(p: seq<Byte>, b: Byte)
    ensures DropWord(p + [b])
         == if DropWord(p) != [] then DropWord(p) + [b]
            else if IsAsciiWhitespace(b) then [b] else []
  {
    if p == [] {
      assert DropWord([b][1..]) == [];
    } else if !IsAsciiWhitespace(p[0]) {
      assert (p + [b])[1..] == p[1..] + [b];
      DropWordAppend(p[1..], b);
    }
  }

  /** Appending one byte to a stream adds a run exactly when the byte is
      not whitespace and the stream did not already end inside a word. */
  lemma {:induction false} WordRunsAppendByte(p: seq<Byte>, b: Byte)
    ensures WordRuns(p + [b]) == WordRuns(p) + (if !IsAsciiWhitespace(b) && !InWord(p) then 1 else 0)
    decreases |p|
  {
    var pb := p + [b];
    if p == [] {
      assert pb[1..] == [];
      if !IsAsciiWhitespace(b) {
        assert DropWord(pb) == [];
      }
    } else if IsAsciiWhitespace(p[0]) {
      WordRunsAppendSpace(p, b);
    } else {
      WordRunsAppendWord(p, b);
    }
  }

  /** The case of `WordRunsAppendByte` where `p` starts with whitespace. */
  lemma {:induction false} WordRunsAppendSpace(p: seq<Byte>, b: Byte)
    requires p != [] && IsAsciiWhitespace(p[0])
    ensures WordRuns(p + [b]) == WordRuns(p) + (if !IsAsciiWhitespace(b) && !InWord(p) then 1 else 0)
    decreases |p|, 0
  {
    var pb := p + [b];
    var q := p[1..];
    assert pb[0] == p[0] && pb[1..] == q + [b];
    WordRunsAppendByte(q, b);
    if q != [] {
      assert q[|q| - 1] == p[|p| - 1];
    }
  }

  /** The case of `WordRunsAppendByte` where `p` starts inside a word. */
  lemma {:induction false} WordRunsAppendWord(p: seq<Byte>, b: Byte)
    requires p != [] && !IsAsciiWhitespace(p[0])
    ensures WordRuns(p + [b]) == WordRuns(p) + (if !IsAsciiWhitespace(b) && !InWord(p) then 1 else 0)
    decreases |p|, 0
  {
    var pb := p + [b];
    var d := DropWord(p);
    DropWordAppend(p, b);
    assert WordRuns(pb) == 1 + WordRuns(DropWord(pb));
    assert WordRuns(p) == 1 + WordRuns(d);
    if d != [] {
      WordRunsAppendByte(d, b);
      assert d[|d| - 1] == p[|p| - 1];
    } else {
      assert InWord(p);
      if IsAsciiWhitespace(b) {
        assert [b][1..] == [];
        assert WordRuns([b]) == WordRuns([]);
      }
    }
  }

  /** The flag-driven count equals the number of maximal non-whitespace runs. */
  lemma {:induction false} WordCountIsRuns(s: seq<Byte>)
    ensures WordCount(s) == WordRuns(s)
    decreases |s|
  {
    if s != [] {
      var init := s[..|s| - 1];
      assert s == init + [s[|s| - 1]];
      WordCountIsRuns(init);
      WordRunsAppendByte(init, s[|s| - 1]);
    }
  }

  /** Words in two consecutive reads add up, except that a word running
      across the boundary is counted once, not twice. */
  lemma {:induction false} WordCountAppend(a: seq<Byte>, b: seq<Byte>)
    ensures WordCount(a + b) + (if InWord(a) && b != [] && !IsAsciiWhitespace(b[0]) then 1 else 0)
         == WordCount(a) + WordCount(b)
    decreases |b|
  {
    if b == [] {
      assert a + b == a;
    } else {
      var init := b[..|b| - 1];
      assert (a + b)[..|a + b| - 1] == a + init;
      WordCountAppend(a, init);
      if init != [] {
        assert (a + init)[|a + init| - 1] == init[|init| - 1];
        assert init[0] == b[0];
      } else {
        assert a + init == a;
      }
    }
  }

  /** A vertical tab does not end a word: "a", VT, "b" is one word. */
  lemma VerticalTabInWord()
    ensures !IsAsciiWhitespace(0x0B)
    ensures WordCount([0x61, 0x0B, 0x62]) == 1
  {
    var s: seq<Byte> := [0x61, 0x0B, 0x62];
    assert s[..2] == [0x61, 0x0B] && s[..2][..1] == [0x61];
    assert WordCount([0x61]) == 1 by {
      assert [0x61 as Byte][..0] == [];
    }
    assert WordCount(s[..2]) == 1;
  }

  // ---------------------------------------------------------------------
  // Characters

  /** The character count is the number of code points the longest valid
      prefix decodes to. */
  lemma CharCountIsDecodedLength(s: seq<Byte>)
    ensures Valid(s[..ValidUpTo(s)])
    ensures CharCount(s) == |Decode(s[..ValidUpTo(s)])|
  {
    ValidUpToIsValid(s);
    CharCountIsLeadByteCount(s[..ValidUpTo(s)]);
  }

  /** For valid UTF-8 the character count is the full code-point count,
      which is also the number of bytes that are not continuation bytes. */
  lemma CharsOfValidStream(s: seq<Byte>)
    requires Valid(s)
    ensures StreamStats(s).charsCount == |Decode(s)| == LeadByteCount(s)
  {
    ValidIffScanCompletes(s);
    assert s[..ValidUpTo(s)] == s;
    CharCountIsLeadByteCount(s);
  }

  /** Once a malformed byte has been read, later bytes never add characters. */
  lemma CharsStopAtMalformed(s: seq<Byte>, t: seq<Byte>)
    requires ValidUpTo(s) < |s| && !IsCharPrefix(s[ValidUpTo(s)..])
    ensures CharCount(s + t) == CharCount(s)
  {
    NoResumeAfterMalformed(s, t);
    SameScanSameCount(s, t);
  }

  /** Bytes appended after the scan has stopped add no characters. */
  lemma SameScanSameCount(s: seq<Byte>, t: seq<Byte>)
    requires ValidUpTo(s + t) == ValidUpTo(s)
    ensures CharCount(s + t) == CharCount(s)
  {
    var n := ValidUpTo(s);
    assert (s + t)[..n] == s[..n];
  }

  // ---------------------------------------------------------------------
  // Whole streams

  /** An empty stream yields `Stats::new()`: every counter is 0. */
  lemma EmptyStream()
    ensures StreamStats([]) == Dao.Stats.New()
  {
    assert ValidUpTo([]) == 0;
  }

  /** In pure ASCII every byte is one character. */
  lemma {:induction false} AsciiStream(s: seq<Byte>)
    requires forall i | 0 <= i < |s| :: s[i] < 0x80
    ensures Valid(s) && StreamStats(s).charsCount == |s|
  {
    AsciiIsValid(s);
    CharsOfValidStream(s);
    AsciiLeadBytes(s);
  }

  lemma {:induction false} AsciiIsValid(s: seq<Byte>)
    requires forall i | 0 <= i < |s| :: s[i] < 0x80
    ensures Valid(s)
  {
    if s != [] {
      assert s[..1] == [s[0]];
      AsciiIsValid(s[1..]);
    }
  }

  lemma {:induction false} AsciiLeadBytes(s: seq<Byte>)
    requires forall i | 0 <= i < |s| :: s[i] < 0x80
    ensures LeadByteCount(s) == |s|
  {
    if s != [] {
      AsciiLeadBytes(s[1..]);
    }
  }
}
