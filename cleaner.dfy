/** The cleaning pipeline of CommentCleaner (app.py:144-228): resolve the comment
    column, drop blank rows, drop emoji-only rows, clean each cell, keep the rows
    that pass the quality gate, and record the removal counters and statistics. */
module Cleaner {
  import opened Wrappers
  import opened Seqs
  import opened Chars
  import opened Transformers
  import opened Quality
  import opened Columns

  /** One row of a data frame: column name to cell; None is a missing value. */
  type Row = map<string, Option<string>>

  /** A data frame: its column names in order and its rows. */
  datatype Table = Table(columns: seq<string>, rows: seq<Row>)

  function ColumnSet(columns: seq<string>): set<string> {
    set c | c in columns
  }

  /** Every row has a cell for exactly the table's columns. */
  predicate WellFormed(t: Table) {
    forall r :: r in t.rows ==> r.Keys == ColumnSet(t.columns)
  }

  /** The working columns `clean_dataset` adds to the frame and drops again. */
  const HelperColumns: set<string> := {"cleaned_comment", "char_count", "word_count", "is_valid"}

  /** The cell of `r` in column `col`. */
  function Cell(r: Row, col: string): Option<string> {
    if col in r then r[col] else None
  }

  /** The switches of `clean_dataset` (app.py:144-149). */
  datatype Options = Options(removeEmoji: bool, removeUrl: bool, removeMention: bool, removeHashtag: bool)

  /** The default switches of `clean_dataset`: emoji and URL removal on, mention and
      hashtag removal off. */
  const DefaultOptions: Options := Options(removeEmoji := true, removeUrl := true, removeMention := false, removeHashtag := false)

  /** The default `min_char_length` of `CommentCleaner.__init__`. */
  const DefaultMinLength: int := 10

  /** The `ValueError`s `clean_dataset` raises. */
  datatype CleanError = Undetectable | ColumnNotFound(column: string)

  /** The `cleaning_stats` dictionary (app.py:217-223). */
  datatype Stats = Stats(originalCount: nat, afterBlankRemoval: nat, finalCount: nat, totalRemoved: nat, retentionRate: real)

  /** One run of the pipeline: character classes, switches, the minimum length in
      force and the resolved comment column. */
  datatype Job = Job(cc: CharClasses, opts: Options, minLength: int, column: string)

  /** The column `clean_dataset` works on (app.py:154-162): the requested one, which
      must exist, or the detected one. */
  function ResolveColumn(columns: seq<string>, requested: Option<string>): (r: Result<string, CleanError>)
    ensures r.Success? ==> r.value in columns
    ensures requested.Some? ==> (r.Success? <==> requested.value in columns)
    ensures requested.Some? && r.Success? ==> r.value == requested.value
    ensures requested.Some? && r.Failure? ==> r.error == ColumnNotFound(requested.value)
    ensures requested.None? ==> (r.Failure? <==> DetectCommentColumn(columns).None?)
    ensures requested.None? && r.Failure? ==> r.error == Undetectable
    ensures requested.None? && r.Success? ==> DetectCommentColumn(columns) == Some(r.value)
  {
    var name := if requested.Some? then requested else DetectCommentColumn(columns);
    match name
    case None => Failure(Undetectable)
    case Some(c) => if c in columns then Success(c) else Failure(ColumnNotFound(c))
  }

  /** The cell transformations in their fixed order (app.py:190-205): emoji, URLs,
      mentions and hashtags as switched, then repeated punctuation, then whitespace. */
  function CleanCell(cc: CharClasses, opts: Options, v: Option<string>): (r: Option<string>)
    ensures r.None? <==> v.None?
    ensures r.Some? ==> Normalized(r.value) && NoLongRun(r.value)
    ensures (!opts.removeEmoji && !opts.removeUrl && !opts.removeMention && !opts.removeHashtag &&
             v.Some? && Normalized(v.value) && NoLongRun(v.value)) ==> r == v
  {
    var v1 := if opts.removeEmoji then RemoveEmojis(cc, v) else v;
    var v2 := if opts.removeUrl then RemoveUrls(v1) else v1;
    var v3 := if opts.removeMention then RemoveMentions(cc, v2) else v2;
    var v4 := if opts.removeHashtag then RemoveHashtags(cc, v3) else v3;
    CleanWhitespace(RemoveSpecialChars(v4))
  }

  // ---------------------------------------------------------------------------
  // The pipeline as functions of the input rows
  // ---------------------------------------------------------------------------

  function NotBlank(col: string): Row -> bool {
    r => !IsBlankOrEmpty(Cell(r, col))
  }

  function Blank(col: string): Row -> bool {
    r => IsBlankOrEmpty(Cell(r, col))
  }

  function EmojiOnly(cc: CharClasses, col: string): Row -> bool {
    r => IsOnlyEmojis(cc, Cell(r, col))
  }

  function NotEmojiOnly(cc: CharClasses, col: string): Row -> bool {
    r => !IsOnlyEmojis(cc, Cell(r, col))
  }

  /** The quality gate's verdict on a row's cleaned comment. */
  function Judge(j: Job, r: Row): Verdict {
    Classify(CleanCell(j.cc, j.opts, Cell(r, j.column)), j.minLength)
  }

  function Passes(j: Job): Row -> bool {
    r => Judge(j, r).Keep?
  }

  /** The row with its comment cell replaced by the cleaned text. */
  function Rewrite(j: Job): Row -> Row {
    r => r[j.column := CleanCell(j.cc, j.opts, Cell(r, j.column))]
  }

  /** The rows left once blank cells are dropped (app.py:177). */
  function AfterBlanks(j: Job, rows: seq<Row>): seq<Row> {
    Filter(rows, NotBlank(j.column))
  }

  /** The rows the quality gate sees: blank rows dropped, then emoji-only rows when
      emoji removal is on (app.py:177-187). */
  function Screened(j: Job, rows: seq<Row>): seq<Row> {
    var b := AfterBlanks(j, rows);
    if j.opts.removeEmoji then Filter(b, NotEmojiOnly(j.cc, j.column)) else b
  }

  /** The value `only_emojis` is set to (0 when emoji removal is off). */
  function EmojiOnlyCount(j: Job, rows: seq<Row>): nat {
    if j.opts.removeEmoji then |Filter(AfterBlanks(j, rows), EmojiOnly(j.cc, j.column))| else 0
  }

  /** The cleaned comment of a row. */
  function CleanAt(j: Job): Row -> Option<string> {
    r => CleanCell(j.cc, j.opts, Cell(r, j.column))
  }

  /** `removed_rows` at the end of `clean_dataset`. */
  function Outcome(j: Job, rows: seq<Row>): Tally {
    Tallied(Zero.(onlyEmojis := EmojiOnlyCount(j, rows)), Map(Screened(j, rows), CleanAt(j)), j.minLength)
  }

  /** The rows `clean_dataset` returns. */
  function CleanedRows(j: Job, rows: seq<Row>): seq<Row> {
    Map(Filter(Screened(j, rows), Passes(j)), Rewrite(j))
  }

  /** `final_count / original_count * 100`, or 0 for an empty input; the rounding
      to two decimals is not modelled. */
  function RetentionRate(finalCount: nat, originalCount: nat): (rate: real)
    ensures originalCount == 0 ==> rate == 0.0
    ensures finalCount <= originalCount ==> 0.0 <= rate <= 100.0
    ensures 0 < originalCount == finalCount ==> rate == 100.0
    ensures originalCount > 0 ==> rate * (originalCount as real) == (finalCount as real) * 100.0
  {
    if originalCount > 0 then
      assert finalCount <= originalCount ==> (finalCount as real) / (originalCount as real) <= 1.0;
      (finalCount as real) / (originalCount as real) * 100.0
    else 0.0
  }

  /** The `cleaning_stats` dictionary built from the three row counts. */
  function StatsOf(originalCount: nat, afterBlankRemoval: nat, finalCount: nat): (s: Stats)
    requires finalCount <= originalCount
    ensures s.originalCount == originalCount && s.afterBlankRemoval == afterBlankRemoval
    ensures s.finalCount == finalCount && s.retentionRate == RetentionRate(finalCount, originalCount)
    ensures s.finalCount + s.totalRemoved == s.originalCount
  {
    Stats(originalCount, afterBlankRemoval, finalCount, originalCount - finalCount,
          RetentionRate(finalCount, originalCount))
  }

  /** `cleaning_stats` at the end of `clean_dataset`. */
  function Summary(j: Job, rows: seq<Row>): Stats {
    StatsOf(|rows|, |AfterBlanks(j, rows)|, |CleanedRows(j, rows)|)
  }

  // ---------------------------------------------------------------------------
  // The cleaner object
  // ---------------------------------------------------------------------------

  class CommentCleaner {
    const minCharLength: int
    var cleaningStats: Option<Stats>
    var removedRows: Tally

    /** `__init__` (app.py:35-43). */
    constructor (minCharLength: int := DefaultMinLength)
      ensures this.minCharLength == minCharLength
      ensures cleaningStats == None && removedRows == Zero
    {
      this.minCharLength := minCharLength;
      cleaningStats := None;
      removedRows := Zero;
    }

    /** `is_valid_comment` (app.py:107-127): the verdict of the gate, with the
        counter of the failed check bumped. */
    method IsValidComment(text: Option<string>, minLength: int) returns (ok: bool)
      modifies this`removedRows
      ensures ok <==> Classify(text, minLength).Keep?
      ensures removedRows == old(removedRows).Record(Classify(text, minLength))
    {
      if text.None? || text.value == [] {
        removedRows := removedRows.Bump(BlankEmpty);
        return false;
      }
      var cleaned := Strip(text.value);
      if cleaned == [] {
        removedRows := removedRows.Bump(BlankEmpty);
        return false;
      }
      if |cleaned| < minLength {
        removedRows := removedRows.Bump(TooShort);
        return false;
      }
      if MatchesNonLetters(cleaned) {
        removedRows := removedRows.Bump(OnlySpecialChars);
        return false;
      }
      return true;
    }

    /** `df['cleaned_comment'].apply(lambda x: self.is_valid_comment(x, min_length))`
        (app.py:211): every cell judged in order, the counters bumped as it goes. */
    method ValidateColumn(cells: seq<Option<string>>, minLength: int) returns (valid: seq<bool>)
      modifies this`removedRows
      ensures valid == Map(cells, KeptBy(minLength))
      ensures removedRows == Tallied(old(removedRows), cells, minLength)
    {
      valid := [];
      var k := 0;
      while k < |cells|
        invariant 0 <= k <= |cells|
        invariant valid == Map(cells[..k], KeptBy(minLength))
        invariant removedRows == Tallied(old(removedRows), cells[..k], minLength)
      {
        var ok := IsValidComment(cells[k], minLength);
        TalliedSnoc(old(removedRows), cells, minLength, k);
        MapSnoc(cells, KeptBy(minLength), k);
        valid := valid + [ok];
        k := k + 1;
      }
      assert cells[..k] == cells;
    }

    /** The row filters before cleaning (app.py:176-187): blank rows are dropped,
        then, with emoji removal on, emoji-only rows, whose number `only_emojis`
        is set to. */
    method Screen(j: Job, rows: seq<Row>) returns (frame: seq<Row>, blanksRemoved: nat)
      modifies this`removedRows
      ensures frame == Screened(j, rows)
      ensures blanksRemoved == |rows| - |AfterBlanks(j, rows)|
      ensures removedRows == old(removedRows).(onlyEmojis := if j.opts.removeEmoji then EmojiOnlyCount(j, rows) else old(removedRows).onlyEmojis)
    {
      frame := Filter(rows, NotBlank(j.column));
      blanksRemoved := |rows| - |frame|;
      if j.opts.removeEmoji {
        var emojiOnlyCount := |Filter(frame, EmojiOnly(j.cc, j.column))|;
        removedRows := removedRows.(onlyEmojis := emojiOnlyCount);
        frame := Filter(frame, NotEmojiOnly(j.cc, j.column));
      }
    }

    /** Cleaning the comment column and applying the quality gate (app.py:189-213):
        the rows whose cleaned comment passes, in order, with the gate's counters
        bumped for the others. */
    method Gate(j: Job, frame: seq<Row>) returns (kept: seq<Row>)
      modifies this`removedRows
      ensures kept == Filter(frame, Passes(j))
      ensures removedRows == Tallied(old(removedRows), Map(frame, CleanAt(j)), j.minLength)
    {
      var cells := Map(frame, CleanAt(j));
      var valid := ValidateColumn(cells, j.minLength);
      GateSelects(j, frame);
      kept := Select(frame, valid);
    }

    /** `clean_dataset` (app.py:144-228). Raising leaves the counters and the
        statistics as they were; otherwise both are replaced. */
    method CleanDataset(cc: CharClasses, df: Table, commentColumn: Option<string> := None,
                        opts: Options := DefaultOptions, minLength: Option<int> := None) returns (result: Result<Table, CleanError>)
      requires forall c :: c in df.columns ==> c !in HelperColumns
      modifies this
      ensures ResolveColumn(df.columns, commentColumn).Failure? ==>
        result == Failure(ResolveColumn(df.columns, commentColumn).error) &&
        removedRows == old(removedRows) && cleaningStats == old(cleaningStats)
      ensures ResolveColumn(df.columns, commentColumn).Success? ==>
        var j := Job(cc, opts, if minLength.Some? then minLength.value else minCharLength,
                     ResolveColumn(df.columns, commentColumn).value);
        result == Success(Table(df.columns, CleanedRows(j, df.rows))) &&
        removedRows == Outcome(j, df.rows) &&
        cleaningStats == Some(Summary(j, df.rows))
    {
      var resolved := ResolveColumn(df.columns, commentColumn);
      if resolved.Failure? {
        return Failure(resolved.error);
      }
      var minLen := if minLength.Some? then minLength.value else minCharLength;
      var cleaned := Process(Job(cc, opts, minLen, resolved.value), df);
      result := Success(cleaned);
    }

    /** The body of `clean_dataset` once the column and the minimum length are
        settled (app.py:166-228): reset the counters, screen, clean and gate the
        rows, record the statistics and write the cleaned comments back. */
    method Process(j: Job, df: Table) returns (cleaned: Table)
      modifies this`removedRows, this`cleaningStats
      ensures cleaned == Table(df.columns, CleanedRows(j, df.rows))
      ensures removedRows == Outcome(j, df.rows)
      ensures cleaningStats == Some(Summary(j, df.rows))
    {
      var originalCount := |df.rows|;
      removedRows := Zero;

      var frame, blanksRemoved := Screen(j, df.rows);
      assert removedRows == Zero.(onlyEmojis := EmojiOnlyCount(j, df.rows));
      var kept := Gate(j, frame);
      ScreenedShrinks(j, df.rows);

      var finalCount := |kept|;
      cleaningStats := Some(StatsOf(originalCount, originalCount - blanksRemoved, finalCount));
      cleaned := Table(df.columns, Map(kept, Rewrite(j)));
    }
  }

  /** Each filter only removes rows. */
  lemma ScreenedShrinks(j: Job, rows: seq<Row>)
    ensures |Filter(Screened(j, rows), Passes(j))| <= |Screened(j, rows)| <= |AfterBlanks(j, rows)| <= |rows|
  {
  }

  /** Keeping the rows whose cleaned comment the gate accepts, by the flags
      `is_valid` holds (app.py:211-212), is filtering by `Passes`. */
  lemma GateSelects(j: Job, frame: seq<Row>)
    ensures Select(frame, Map(Map(frame, CleanAt(j)), KeptBy(j.minLength))) == Filter(frame, Passes(j))
  {
    var cells := Map(frame, CleanAt(j));
    var valid := Map(cells, KeptBy(j.minLength));
    forall i | 0 <= i < |frame|
      ensures valid[i] == Passes(j)(frame[i])
    {
      assert cells[i] == CleanAt(j)(frame[i]);
    }
    SelectIsFilter(frame, valid, Passes(j));
  }

  // ---------------------------------------------------------------------------
  // What the pipeline guarantees
  // ---------------------------------------------------------------------------

  /** `blanks_removed` counts exactly the rows whose comment cell is missing, empty
      or whitespace only. */
  lemma BlanksAreBlankRows(j: Job, rows: seq<Row>)
    ensures |rows| - |AfterBlanks(j, rows)| == |Filter(rows, Blank(j.column))|
  {
    FilterPartition(rows, NotBlank(j.column), Blank(j.column));
  }

  lemma ScreenedCount(j: Job, rows: seq<Row>)
    ensures |AfterBlanks(j, rows)| == |Screened(j, rows)| + EmojiOnlyCount(j, rows)
  {
    if j.opts.removeEmoji {
      FilterPartition(AfterBlanks(j, rows), NotEmojiOnly(j.cc, j.column), EmojiOnly(j.cc, j.column));
    }
  }

  lemma OutcomeCounts(j: Job, rows: seq<Row>)
    ensures Outcome(j, rows).Rejected() + |CleanedRows(j, rows)| == |Screened(j, rows)|
    ensures Outcome(j, rows).onlyEmojis == EmojiOnlyCount(j, rows)
  {
    var screened := Screened(j, rows);
    TalliedCounts(Zero.(onlyEmojis := EmojiOnlyCount(j, rows)), Map(screened, CleanAt(j)), j.minLength);
    FilterMapLength(screened, CleanAt(j), Passes(j), KeptBy(j.minLength));
  }

  /** Every input row is accounted for exactly once: returned, dropped as blank,
      dropped as emoji-only, or rejected by the gate under one of its counters. */
  lemma RowAccounting(j: Job, rows: seq<Row>)
    ensures |rows| == |CleanedRows(j, rows)| + (|rows| - |AfterBlanks(j, rows)|) +
      Outcome(j, rows).onlyEmojis + Outcome(j, rows).blankEmpty + Outcome(j, rows).tooShort +
      Outcome(j, rows).onlySpecialChars
  {
    ScreenedCount(j, rows);
    OutcomeCounts(j, rows);
  }

  /** A row survives when its comment is not blank, is not emoji-only (if emoji
      removal is on), and its cleaned comment passes the gate. */
  function Survives(j: Job): Row -> bool {
    r => !IsBlankOrEmpty(Cell(r, j.column)) &&
         (!j.opts.removeEmoji || !IsOnlyEmojis(j.cc, Cell(r, j.column))) &&
         Judge(j, r).Keep?
  }

  function NeitherBlankNorEmojiOnly(j: Job): Row -> bool {
    r => !IsBlankOrEmpty(Cell(r, j.column)) && !IsOnlyEmojis(j.cc, Cell(r, j.column))
  }

  /** The output is the surviving input rows, in their original order, each with
      only its comment cell replaced by the cleaned text. */
  lemma CleanedRowsInOrder(j: Job, rows: seq<Row>)
    ensures CleanedRows(j, rows) == Map(Filter(rows, Survives(j)), Rewrite(j))
    ensures IsSubseq(Filter(rows, Survives(j)), rows)
  {
    FilterIsSubseq(rows, Survives(j));
    if j.opts.removeEmoji {
      SurvivorsWithEmojiFilter(j, rows);
    } else {
      SurvivorsWithoutEmojiFilter(j, rows);
    }
  }

  lemma SurvivorsWithEmojiFilter(j: Job, rows: seq<Row>)
    requires j.opts.removeEmoji
    ensures Filter(Screened(j, rows), Passes(j)) == Filter(rows, Survives(j))
  {
    FilterFilter(rows, NotBlank(j.column), NotEmojiOnly(j.cc, j.column), NeitherBlankNorEmojiOnly(j));
    FilterFilter(rows, NeitherBlankNorEmojiOnly(j), Passes(j), Survives(j));
  }

  lemma SurvivorsWithoutEmojiFilter(j: Job, rows: seq<Row>)
    requires !j.opts.removeEmoji
    ensures Filter(Screened(j, rows), Passes(j)) == Filter(rows, Survives(j))
  {
    FilterFilter(rows, NotBlank(j.column), Passes(j), Survives(j));
  }

  /** What a returned comment cell looks like: present, whitespace-normalized, no run
      of three `!?.`, at least the minimum length, not empty, and holding a letter. */
  predicate Acceptable(s: string, minLength: int) {
    Normalized(s) && NoLongRun(s) && s != [] && |s| >= minLength && HasAsciiLetter(s)
  }

  /** A row the gate keeps, once rewritten, has the same columns and an acceptable
      comment cell. */
  lemma RewriteKept(j: Job, columns: seq<string>, x: Row)
    requires x.Keys == ColumnSet(columns) && j.column in columns && Passes(j)(x)
    ensures Rewrite(j)(x).Keys == ColumnSet(columns)
    ensures Cell(Rewrite(j)(x), j.column).Some? && Acceptable(Cell(Rewrite(j)(x), j.column).value, j.minLength)
  {
    var c := CleanCell(j.cc, j.opts, Cell(x, j.column));
    assert Cell(Rewrite(j)(x), j.column) == c;
    assert Classify(c, j.minLength) == Keep;
    StripFixpoint(c.value);
  }

  lemma ScreenedRowsAreInput(j: Job, rows: seq<Row>, x: Row)
    requires x in Screened(j, rows)
    ensures x in rows
  {
    assert x in AfterBlanks(j, rows);
  }

  /** Every returned row has the input's columns and an acceptable comment cell. */
  lemma CleanedCells(j: Job, t: Table)
    requires WellFormed(t) && j.column in t.columns
    ensures forall r :: r in CleanedRows(j, t.rows) ==>
      r.Keys == ColumnSet(t.columns) && Cell(r, j.column).Some? && Acceptable(Cell(r, j.column).value, j.minLength)
  {
    var kept := Filter(Screened(j, t.rows), Passes(j));
    var out := CleanedRows(j, t.rows);
    forall r | r in out
      ensures r.Keys == ColumnSet(t.columns) && Cell(r, j.column).Some? && Acceptable(Cell(r, j.column).value, j.minLength)
    {
      var i :| 0 <= i < |out| && out[i] == r;
      var x := kept[i];
      assert r == Rewrite(j)(x);
      assert x in kept;
      ScreenedRowsAreInput(j, t.rows, x);
      RewriteKept(j, t.columns, x);
    }
  }

  /** The statistics agree with each other: the blank-removal count, the final count
      and the removal total add up, and the retention rate is a percentage. */
  lemma SummaryConsistent(j: Job, rows: seq<Row>)
    ensures var s := Summary(j, rows);
      s.originalCount == |rows| &&
      s.finalCount <= s.afterBlankRemoval <= s.originalCount &&
      s.finalCount + s.totalRemoved == s.originalCount &&
      0.0 <= s.retentionRate <= 100.0
  {
    RowAccounting(j, rows);
  }
}
