/** The record types the counting loop fills in and the command line reads. */
module Dao {
  import opened Results

  /** The four counters of one pass over a stream; `usize` becomes `nat`. */
  datatype Stats = Stats(bytesCount: nat, wordsCount: nat, linesCount: nat, charsCount: nat)
  {
    /** `Stats::new`: every counter starts at 0. */
    static function New(): (r: Stats)
      ensures r.bytesCount == 0 && r.wordsCount == 0 && r.linesCount == 0 && r.charsCount == 0
    {
      Stats(0, 0, 0, 0)
    }
  }

  /** The text around the counter's name in an error message. */
  const MessagePrefix: string := "An error occured during computing "
  const MessageSuffix: string := " count!"

  /** The message reported for a counter that could not be computed: the
      counter's name between the fixed prefix and suffix. */
  function ErrorMessage(counter: string): (m: string)
    ensures |m| == |MessagePrefix| + |counter| + |MessageSuffix|
    ensures m[..|MessagePrefix|] == MessagePrefix
    ensures m[|MessagePrefix|..|MessagePrefix| + |counter|] == counter
    ensures m[|MessagePrefix| + |counter|..] == MessageSuffix
  {
    MessagePrefix + counter + MessageSuffix
  }

  /** Per counter, the error to show in its place, if any. */
  datatype StatErrors = StatErrors(
    bytesCount: Option<string>,
    wordsCount: Option<string>,
    linesCount: Option<string>,
    charsCount: Option<string>)
  {
    /** `StatErrors::new_all_fields_errors`: every counter failed, each with
        a message naming that counter. */
    static function NewAllFieldsErrors(): (r: StatErrors)
      ensures r.bytesCount == Some(ErrorMessage("bytes"))
      ensures r.wordsCount == Some(ErrorMessage("words"))
      ensures r.linesCount == Some(ErrorMessage("lines"))
      ensures r.charsCount == Some(ErrorMessage("chars"))
      ensures r.bytesCount != r.wordsCount && r.bytesCount != r.linesCount && r.bytesCount != r.charsCount
      ensures r.wordsCount != r.linesCount && r.wordsCount != r.charsCount && r.linesCount != r.charsCount
    {
      StatErrors(
        Some(ErrorMessage("bytes")),
        Some(ErrorMessage("words")),
        Some(ErrorMessage("lines")),
        Some(ErrorMessage("chars")))
    }

    /** `StatErrors::new`: no counter failed. */
    static function New(): (r: StatErrors)
      ensures r.bytesCount.None? && r.wordsCount.None? && r.linesCount.None? && r.charsCount.None?
    {
      StatErrors(None, None, None, None)
    }
  }

  /** The counters obtained from a file. */
  datatype FileStats = FileStats(stats: Stats)

  /** The counters obtained from standard input. */
  datatype StdInStats = StdInStats(stats: Stats)

  /** Where the counters came from. */
  datatype DataSource = File(fileStats: FileStats) | StdIn(stdInStats: StdInStats)
  {
    /** `DataSource::stats`: the counters of whichever source this is. */
    function SourceStats(): (r: Stats)
      ensures File? ==> r == fileStats.stats
      ensures StdIn? ==> r == stdInStats.stats
    {
      match this
      case File(f) => f.stats
      case StdIn(s) => s.stats
    }
  }
}
