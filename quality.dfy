/** The row predicates and the quality gate of CommentCleaner (app.py:90-127):
    blank cells, emoji-only cells, and the ordered validity checks whose failures
    are tallied by removal category. */
module Quality {
  import opened Wrappers
  import opened Seqs
  import opened Chars
  import opened Transformers

  /** Every character of `s` is whitespace (true of the empty string). */
  predicate AllSpace(s: string) {
    forall c :: c in s ==> IsSpace(c)
  }

  lemma StripEmptyIff(s: string)
    ensures Strip(s) == [] <==> AllSpace(s)
  {
    if !AllSpace(s) {
      var c :| c in s && !IsSpace(c);
      var i :| 0 <= i < |s| && s[i] == c;
    }
  }

  /** `is_blank_or_empty` (app.py:90-98): missing, empty, or whitespace only. */
  function IsBlankOrEmpty(v: Option<string>): (b: bool)
    ensures b <==> v.None? || AllSpace(v.value)
  {
    match v
    case None => true
    case Some(s) =>
      StripEmptyIff(s);
      s == [] || Strip(s) == []
  }

  /** `is_only_emojis` (app.py:100-105): present, and nothing but whitespace is left
      once the emoji are removed. */
  function IsOnlyEmojis(cc: CharClasses, v: Option<string>): (b: bool)
    ensures b <==> v.Some? && forall c :: c in v.value ==> cc.isEmoji(c) || IsSpace(c)
  {
    match v
    case None => false
    case Some(s) =>
      StripEmptyIff(StripEmoji(cc, s));
      Strip(StripEmoji(cc, s)) == []
  }

  /** Why a row was removed: the keys of `removed_rows` (app.py:38-43). */
  datatype Removal = BlankEmpty | TooShort | OnlySpecialChars | OnlyEmojis

  /** The outcome of the quality gate for one cell. */
  datatype Verdict = Keep | Reject(reason: Removal)

  predicate HasAsciiLetter(s: string) {
    exists i :: 0 <= i < |s| && IsAsciiLetter(s[i])
  }

  /** `re.match(r'^[^a-zA-Z]+$', s)`: one or more characters, none of them an ASCII
      letter, up to the end. (The `$` could also match before a final newline, but the
      class `[^a-zA-Z]` consumes that newline anyway.) */
  predicate MatchesNonLetters(s: string)
    decreases |s|
  {
    |s| > 0 && !IsAsciiLetter(s[0]) && (|s| == 1 || MatchesNonLetters(s[1..]))
  }

  lemma {:induction false} MatchesNonLettersIff(s: string)
    ensures MatchesNonLetters(s) <==> s != [] && !HasAsciiLetter(s)
    decreases |s|
  {
    if |s| > 1 {
      MatchesNonLettersIff(s[1..]);
      if HasAsciiLetter(s) && !IsAsciiLetter(s[0]) {
        var i :| 0 <= i < |s| && IsAsciiLetter(s[i]);
        assert s[1..][i - 1] == s[i];
      }
      if HasAsciiLetter(s[1..]) {
        var i :| 0 <= i < |s[1..]| && IsAsciiLetter(s[1..][i]);
        assert s[i + 1] == s[1..][i];
      }
    }
  }

  /** The checks of `is_valid_comment` (app.py:107-127) in their fixed order: blank,
      then too short, then no ASCII letter at all. */
  function Classify(v: Option<string>, minLength: int): (r: Verdict)
    ensures r != Reject(OnlyEmojis)
    ensures r == Reject(BlankEmpty) <==> IsBlankOrEmpty(v)
    ensures r == Reject(TooShort) <==> v.Some? && !AllSpace(v.value) && |Strip(v.value)| < minLength
    ensures r == Reject(OnlySpecialChars) <==>
      v.Some? && !AllSpace(v.value) && |Strip(v.value)| >= minLength && !HasAsciiLetter(Strip(v.value))
    ensures r == Keep <==>
      v.Some? && Strip(v.value) != [] && |Strip(v.value)| >= minLength && HasAsciiLetter(Strip(v.value))
  {
    if v.None? || v.value == [] then Reject(BlankEmpty)
    else
      var cleaned := Strip(v.value);
      StripEmptyIff(v.value);
      MatchesNonLettersIff(cleaned);
      if cleaned == [] then Reject(BlankEmpty)
      else if |cleaned| < minLength then Reject(TooShort)
      else if MatchesNonLetters(cleaned) then Reject(OnlySpecialChars)
      else Keep
  }

  /** The four counters of `removed_rows`. */
  datatype Tally = Tally(blankEmpty: nat, tooShort: nat, onlySpecialChars: nat, onlyEmojis: nat)
  {
    function Get(c: Removal): nat {
      match c
      case BlankEmpty => blankEmpty
      case TooShort => tooShort
      case OnlySpecialChars => onlySpecialChars
      case OnlyEmojis => onlyEmojis
    }

    /** `self.removed_rows[c] += 1`. */
    function Bump(c: Removal): (t: Tally)
      ensures t.Get(c) == Get(c) + 1
      ensures forall d :: d != c ==> t.Get(d) == Get(d)
    {
      match c
      case BlankEmpty => this.(blankEmpty := blankEmpty + 1)
      case TooShort => this.(tooShort := tooShort + 1)
      case OnlySpecialChars => this.(onlySpecialChars := onlySpecialChars + 1)
      case OnlyEmojis => this.(onlyEmojis := onlyEmojis + 1)
    }

    /** The counters after one call of `is_valid_comment` with verdict `v`: a rejection
        bumps its own counter, a kept cell bumps none. */
    function Record(v: Verdict): (t: Tally)
      ensures v.Keep? ==> t == this
      ensures v.Reject? ==> t.Get(v.reason) == Get(v.reason) + 1
      ensures v.Reject? ==> forall d :: d != v.reason ==> t.Get(d) == Get(d)
    {
      if v.Keep? then this else Bump(v.reason)
    }

    /** The rows the quality gate itself rejected. */
    function Rejected(): nat {
      blankEmpty + tooShort + onlySpecialChars
    }
  }

  /** The counters as `__init__` and `clean_dataset` reset them. */
  const Zero := Tally(0, 0, 0, 0)

  /** The counters after `is_valid_comment` has judged `cells` in order, starting
      from `base`. */
  function Tallied(base: Tally, cells: seq<Option<string>>, minLength: int): Tally
    decreases |cells|
  {
    if cells == [] then base
    else Tallied(base, cells[..|cells| - 1], minLength).Record(Classify(cells[|cells| - 1], minLength))
  }

  /** The cells the gate keeps. */
  function KeptBy(minLength: int): Option<string> -> bool {
    v => Classify(v, minLength).Keep?
  }

  lemma TalliedSnoc(base: Tally, cells: seq<Option<string>>, minLength: int, k: nat)
    requires k < |cells|
    ensures Tallied(base, cells[..k + 1], minLength) == Tallied(base, cells[..k], minLength).Record(Classify(cells[k], minLength))
  {
    assert cells[..k + 1][..k] == cells[..k];
  }

  /** Every judged cell is either kept or counted once under blank_empty, too_short
      or only_special_chars; only_emojis is never touched by the gate. */
  lemma {:induction false} TalliedCounts(base: Tally, cells: seq<Option<string>>, minLength: int)
    ensures Tallied(base, cells, minLength).Rejected() + |Filter(cells, KeptBy(minLength))| == base.Rejected() + |cells|
    ensures Tallied(base, cells, minLength).onlyEmojis == base.onlyEmojis
    decreases |cells|
  {
    if cells != [] {
      var init, last := cells[..|cells| - 1], cells[|cells| - 1];
      var before := Tallied(base, init, minLength);
      assert Tallied(base, cells, minLength) == before.Record(Classify(last, minLength));
      var v := Classify(last, minLength);
      TalliedCounts(base, init, minLength);
      InitLast(cells);
      FilterSnoc(init, last, KeptBy(minLength));
      assert |Filter(cells, KeptBy(minLength))| == |Filter(init, KeptBy(minLength))| + (if v.Keep? then 1 else 0);
      RecordCounts(before, v);
    }
  }

  /** A verdict changes the gate's rejection total by one exactly when it rejects,
      and never touches the emoji-only counter. */
  lemma RecordCounts(t: Tally, v: Verdict)
    requires v != Reject(OnlyEmojis)
    ensures t.Record(v).Rejected() == t.Rejected() + (if v.Keep? then 0 else 1)
    ensures t.Record(v).onlyEmojis == t.onlyEmojis
  {
  }
}
