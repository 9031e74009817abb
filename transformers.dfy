/** The text transformers of CommentCleaner (app.py:45-88). Each one works on a
    nullable cell: a missing value comes back unchanged, a present one is rewritten.
    The regular-expression substitutions are modelled as Python's `re.sub` performs
    them: scan from the left, replace the leftmost match, go on after it. */
module Transformers {
  import opened Wrappers
  import opened Seqs
  import opened Chars

  // ---------------------------------------------------------------------------
  // Emoji (app.py:45-50)
  // ---------------------------------------------------------------------------

  function NotEmoji(cc: CharClasses): char -> bool {
    c => !cc.isEmoji(c)
  }

  /** `emoji.replace_emoji(s, replace='')`, seen one character at a time. */
  function StripEmoji(cc: CharClasses, s: string): (r: string)
    ensures IsSubseq(r, s)
    ensures forall c :: c in r <==> c in s && !cc.isEmoji(c)
    ensures forall c :: multiset(r)[c] == if cc.isEmoji(c) then 0 else multiset(s)[c]
  {
    FilterIsSubseq(s, NotEmoji(cc));
    FilterMembers(s, NotEmoji(cc));
    FilterMultiset(s, NotEmoji(cc));
    Filter(s, NotEmoji(cc))
  }

  function RemoveEmojis(cc: CharClasses, v: Option<string>): (r: Option<string>)
    ensures v.None? <==> r.None?
    ensures v.Some? ==> IsSubseq(r.value, v.value)
    ensures v.Some? ==> forall c :: c in r.value <==> c in v.value && !cc.isEmoji(c)
    ensures v.Some? ==> forall c :: multiset(r.value)[c] == if cc.isEmoji(c) then 0 else multiset(v.value)[c]
  {
    match v
    case None => None
    case Some(s) => Some(StripEmoji(cc, s))
  }

  // ---------------------------------------------------------------------------
  // Deleting every match of "HEAD BODY+" (the engine behind app.py:58, 65, 72)
  // ---------------------------------------------------------------------------

  /** The pattern HEAD BODY+ matches at the start of `s`: `head(s)` is the length of
      the literal HEAD found there (0 when there is none) and at least one BODY
      character follows it. */
  predicate MatchAt(s: string, head: string -> nat, body: char -> bool) {
    0 < head(s) < |s| && body(s[head(s)])
  }

  /** Length of the match at the start of `s`: the greedy `+` takes the longest run. */
  function MatchLen(s: string, head: string -> nat, body: char -> bool): (n: nat)
    requires MatchAt(s, head, body)
    ensures head(s) < n <= |s|
    ensures forall i :: head(s) <= i < n ==> body(s[i])
    ensures n == |s| || !body(s[n])
  {
    head(s) + LeadRun(body, s[head(s)..])
  }

  /** `re.sub(HEAD BODY+, '', s)`: at each position either the match starting there
      is deleted or the character is kept and the scan moves on by one. */
  function Scrub(s: string, head: string -> nat, body: char -> bool): (r: string)
    decreases |s|
  {
    if s == [] then []
    else if MatchAt(s, head, body) then Scrub(s[MatchLen(s, head, body)..], head, body)
    else [s[0]] + Scrub(s[1..], head, body)
  }

  /** No position of `s` starts a match. */
  predicate NoMatch(s: string, head: string -> nat, body: char -> bool) {
    forall i :: 0 <= i <= |s| ==> !MatchAt(s[i..], head, body)
  }

  /** Text from none of whose positions a match starts, even with `z` after it,
      is kept whole, and the scan goes on with `z`. */
  lemma {:induction false} ScrubKeepsPrefix(x: string, z: string, head: string -> nat, body: char -> bool)
    requires forall k :: 0 <= k < |x| ==> !MatchAt(x[k..] + z, head, body)
    ensures Scrub(x + z, head, body) == x + Scrub(z, head, body)
    decreases |x|
  {
    if x == [] {
      assert x + z == z;
    } else {
      ScrubKeepStep(x, z, head, body);
      ScrubKeepsPrefix(x[1..], z, head, body);
      ConcatAssoc([x[0]], x[1..], Scrub(z, head, body));
      assert [x[0]] + x[1..] == x;
    }
  }

  /** One step of `ScrubKeepsPrefix`: the first character is kept, and the rest of
      `x` still starts no match. */
  lemma ScrubKeepStep(x: string, z: string, head: string -> nat, body: char -> bool)
    requires x != []
    requires forall k :: 0 <= k < |x| ==> !MatchAt(x[k..] + z, head, body)
    ensures Scrub(x + z, head, body) == [x[0]] + Scrub(x[1..] + z, head, body)
    ensures forall k :: 0 <= k < |x[1..]| ==> !MatchAt(x[1..][k..] + z, head, body)
  {
    var t := x + z;
    assert x[0..] + z == t;
    assert t[1..] == x[1..] + z;
    forall k | 0 <= k < |x[1..]|
      ensures !MatchAt(x[1..][k..] + z, head, body)
    {
      assert x[1..][k..] == x[k + 1..];
    }
  }


  /** Scrubbing only deletes characters. */
  lemma {:induction false} ScrubSubseq(s: string, head: string -> nat, body: char -> bool)
    ensures IsSubseq(Scrub(s, head, body), s)
    decreases |s|
  {
    if s != [] {
      if MatchAt(s, head, body) {
        var n := MatchLen(s, head, body);
        ScrubSubseq(s[n..], head, body);
        SubseqOfSuffix(Scrub(s[n..], head, body), s, n);
      } else {
        ScrubSubseq(s[1..], head, body);
        SubseqCons(s[0], Scrub(s[1..], head, body), s[1..]);
        assert [s[0]] + s[1..] == s;
      }
    }
  }

  /** Text in which the pattern matches nowhere is left as it is. */
  lemma {:induction false} ScrubFixpoint(s: string, head: string -> nat, body: char -> bool)
    requires NoMatch(s, head, body)
    ensures Scrub(s, head, body) == s
    decreases |s|
  {
    if s != [] {
      assert s[0..] == s;
      forall i | 0 <= i <= |s[1..]|
        ensures !MatchAt(s[1..][i..], head, body)
      {
        assert s[1..][i..] == s[i + 1..];
      }
      ScrubFixpoint(s[1..], head, body);
    }
  }

  /** A whole match at the front is deleted and the scan goes on with what follows it. */
  lemma ScrubDropsMatch(u: string, y: string, head: string -> nat, body: char -> bool)
    requires MatchAt(u + y, head, body) && MatchLen(u + y, head, body) == |u|
    ensures Scrub(u + y, head, body) == Scrub(y, head, body)
  {
    assert (u + y)[|u|..] == y;
  }

  /** When `s` does not start with a BODY character, neither does its scrubbed form:
      the character after a deleted match is never a BODY character. */
  lemma {:induction false} ScrubStartsClean(s: string, head: string -> nat, body: char -> bool)
    requires s == [] || !body(s[0])
    ensures Scrub(s, head, body) == [] || !body(Scrub(s, head, body)[0])
    decreases |s|
  {
    if s != [] && MatchAt(s, head, body) {
      var n := MatchLen(s, head, body);
      ScrubStartsClean(s[n..], head, body);
    }
  }

  /** A scrubbed text agrees with the original on its leading run of BODY
      characters: a deletion always leaves a non-BODY character behind it. */
  lemma {:induction false} ScrubAgrees(t: string, head: string -> nat, body: char -> bool, j: nat)
    requires j <= LeadRun(body, Scrub(t, head, body))
    ensures j <= |t| && Scrub(t, head, body)[..j] == t[..j]
    decreases |t|
  {
    if j > 0 {
      var r := Scrub(t, head, body);
      var r' := Scrub(t[1..], head, body);
      BodyHeadKept(t, head, body);
      assert r[1..] == r';
      ScrubAgrees(t[1..], head, body, j - 1);
      ConsTake(t[0], r', j - 1);
      ConsTake(t[0], t[1..], j - 1);
      assert [t[0]] + t[1..] == t;
    }
  }



  /** A scrubbed text that starts with a BODY character kept the first character
      of the original: a deletion would have left a non-BODY character in front. */
  lemma BodyHeadKept(t: string, head: string -> nat, body: char -> bool)
    requires 0 < LeadRun(body, Scrub(t, head, body))
    ensures t != [] && Scrub(t, head, body) == [t[0]] + Scrub(t[1..], head, body)
  {
    assert t != [];
    var kept, n := ScrubFront(t, head, body);
    if MatchAt(t, head, body) {
      ScrubStartsClean(t[n..], head, body);
      assert false;
    }
  }

  /** No match can straddle the cut between `x` and `z`: every suffix of `x` finds
      the same HEAD whether or not `z` follows, and a match cannot run on into `z`,
      either because `z` starts with a non-BODY character or because `x` ends in a
      non-BODY character that no HEAD reaches. */
  predicate CleanCut(x: string, z: string, head: string -> nat, body: char -> bool) {
    (forall k :: 0 <= k < |x| ==> head(x[k..] + z) == head(x[k..]) <= |x| - k) &&
    (z == [] || !body(z[0]) ||
     (x != [] && !body(x[|x| - 1]) && forall k :: 0 <= k < |x| ==> head(x[k..]) < |x| - k))
  }

  lemma CleanCutSuffix(x: string, z: string, head: string -> nat, body: char -> bool, n: nat)
    requires CleanCut(x, z, head, body) && n < |x|
    ensures CleanCut(x[n..], z, head, body)
  {
    forall k | 0 <= k < |x[n..]|
      ensures x[n..][k..] == x[n + k..]
    {
    }
    assert x[n..][|x[n..]| - 1] == x[|x| - 1];
  }

  /** Across a clean cut the two sides are scrubbed independently. */
  lemma {:induction false} ScrubSplit(x: string, z: string, head: string -> nat, body: char -> bool)
    requires CleanCut(x, z, head, body)
    ensures Scrub(x + z, head, body) == Scrub(x, head, body) + Scrub(z, head, body)
    decreases |x|
  {
    if x == [] {
      assert x + z == z;
    } else {
      var kept, n := ScrubSplitStep(x, z, head, body);
      var rest := x[n..];
      var sr, sz := Scrub(rest, head, body), Scrub(z, head, body);
      if n < |x| {
        CleanCutSuffix(x, z, head, body, n);
        ScrubSplit(rest, z, head, body);
      } else {
        assert rest + z == z && sr == [];
        assert sr + sz == sz;
      }
      assert Scrub(rest + z, head, body) == sr + sz;
      ConcatAssoc(kept, sr, sz);
    }
  }

  /** One step of the scan on both sides of a clean cut: the same characters
      `kept` are emitted and the scan resumes at the same place `n` in `x`. */
  lemma ScrubSplitStep(x: string, z: string, head: string -> nat, body: char -> bool)
      returns (kept: string, n: nat)
    requires CleanCut(x, z, head, body) && x != []
    ensures 0 < n <= |x|
    ensures Scrub(x + z, head, body) == kept + Scrub(x[n..] + z, head, body)
    ensures Scrub(x, head, body) == kept + Scrub(x[n..], head, body)
  {
    MatchAcrossCut(x, z, head, body);
    kept, n := ScrubFront(x, head, body);
    var kept', n' := ScrubFront(x + z, head, body);
    assert (x + z)[0] == x[0];
    assert kept' == kept && n' == n;
    DropAppend(x, z, n);
  }

  /** The first step of the scan in one piece: a match is deleted, otherwise the
      first character is kept. */
  lemma ScrubFront(s: string, head: string -> nat, body: char -> bool) returns (kept: string, n: nat)
    requires s != []
    ensures MatchAt(s, head, body) ==> kept == [] && n == MatchLen(s, head, body)
    ensures !MatchAt(s, head, body) ==> kept == [s[0]] && n == 1
    ensures 0 < n <= |s| && Scrub(s, head, body) == kept + Scrub(s[n..], head, body)
  {
    if MatchAt(s, head, body) {
      kept, n := [], MatchLen(s, head, body);
      assert [] + Scrub(s[n..], head, body) == Scrub(s[n..], head, body);
    } else {
      kept, n := [s[0]], 1;
    }
  }

  /** The text before a clean cut starts a match exactly when it does with the rest
      appended, and the match has the same length. */
  lemma MatchAcrossCut(x: string, z: string, head: string -> nat, body: char -> bool)
    requires CleanCut(x, z, head, body) && x != []
    ensures MatchAt(x + z, head, body) == MatchAt(x, head, body)
    ensures MatchAt(x, head, body) ==> MatchLen(x + z, head, body) == MatchLen(x, head, body)
  {
    var s := x + z;
    var h := head(x);
    assert x[0..] == x;
    assert head(s) == h;
    if 0 < h < |x| {
      assert s[h] == x[h];
    } else if h == |x| && z != [] {
      assert s[h] == z[0];
    }
    if MatchAt(x, head, body) {
      var ax := x[h..];
      assert s[h..] == ax + z;
      assert ax[|ax| - 1] == x[|x| - 1];
      LeadRunAppend(body, ax, z);
    }
  }

  // ---------------------------------------------------------------------------
  // URLs (app.py:52-58)
  // ---------------------------------------------------------------------------

  /** `http[s]?://` at the start of `t`: 8 for "https://", 7 for "http://", else 0. */
  function SchemeLen(t: string): (h: nat)
    ensures h == 0 || h == 7 || h == 8
    ensures h <= |t|
    ensures h == 8 <==> |t| >= 8 && t[..8] == "https://"
    ensures h == 7 <==> |t| >= 7 && t[..7] == "http://"
  {
    assert |t| >= 8 && t[..8] == "https://" ==> t[..7][4] == 's';
    if |t| >= 8 && t[..8] == "https://" then 8
    else if |t| >= 7 && t[..7] == "http://" then 7
    else 0
  }

  /** No "http://" or "https://" followed by a URL character appears in `s`. */
  predicate NoUrl(s: string) {
    NoMatch(s, SchemeLen, IsUrlChar)
  }

  /** The scheme itself is made of URL characters. */
  lemma SchemeIsUrlChars(t: string)
    ensures forall i :: 0 <= i < SchemeLen(t) ==> IsUrlChar(t[i])
  {
    if SchemeLen(t) == 8 {
      assert t[..8] == "https://";
      assert forall i :: 0 <= i < 8 ==> t[i] == t[..8][i];
    } else if SchemeLen(t) == 7 {
      assert t[..7] == "http://";
      assert forall i :: 0 <= i < 7 ==> t[i] == t[..7][i];
    }
  }

  /** A URL match depends only on its scheme and first body character. */
  lemma UrlMatchByPrefix(u: string, s: string)
    requires MatchAt(u, SchemeLen, IsUrlChar)
    requires SchemeLen(u) < |s| && s[..SchemeLen(u) + 1] == u[..SchemeLen(u) + 1]
    ensures MatchAt(s, SchemeLen, IsUrlChar)
  {
    var h := SchemeLen(u);
    assert s[h] == s[..h + 1][h];
    assert u[h] == u[..h + 1][h];
    if h == 8 {
      assert s[..8] == s[..9][..8] == u[..9][..8] == u[..8];
    } else {
      assert s[..8] == u[..8];
      assert s[..7] == s[..8][..7] == u[..8][..7] == u[..7];
    }
  }

  /** `re.sub(url_pattern, '', s)`. */
  function StripUrls(s: string): (r: string)
  {
    Scrub(s, SchemeLen, IsUrlChar)
  }

  /** After URL removal no URL is left, not even one formed by joining the text
      around a deleted URL. */
  lemma {:induction false} UrlsGone(s: string)
    ensures NoUrl(StripUrls(s))
    decreases |s|
  {
    var r := StripUrls(s);
    if s == [] {
      assert !MatchAt(r[0..], SchemeLen, IsUrlChar);
    } else if MatchAt(s, SchemeLen, IsUrlChar) {
      UrlsGone(s[MatchLen(s, SchemeLen, IsUrlChar)..]);
    } else {
      var rest := StripUrls(s[1..]);
      UrlsGone(s[1..]);
      assert r == [s[0]] + rest;
      KeptHeadStartsNoUrl(s);
      forall i | 0 <= i <= |r|
        ensures !MatchAt(r[i..], SchemeLen, IsUrlChar)
      {
        if i > 0 {
          assert r[i..] == rest[i - 1..];
        } else {
          assert r[i..] == r;
        }
      }
    }
  }

  /** When no URL starts at the front of `s`, none starts at the front of what URL
      removal makes of it either: a URL there would agree with `s` on its scheme and
      first body character. */
  lemma KeptHeadStartsNoUrl(s: string)
    requires s != [] && !MatchAt(s, SchemeLen, IsUrlChar)
    ensures !MatchAt([s[0]] + StripUrls(s[1..]), SchemeLen, IsUrlChar)
  {
    if MatchAt([s[0]] + StripUrls(s[1..]), SchemeLen, IsUrlChar) {
      KeptHeadMatch(s);
      assert false;
    }
  }

  /** A URL at the front of the kept head and the cleaned rest is a URL at the
      front of `s`. */
  lemma KeptHeadMatch(s: string)
    requires s != [] && MatchAt([s[0]] + StripUrls(s[1..]), SchemeLen, IsUrlChar)
    ensures MatchAt(s, SchemeLen, IsUrlChar)
  {
    var rest := StripUrls(s[1..]);
    var r := [s[0]] + rest;
    var h := SchemeLen(r);
    SchemeIsUrlChars(r);
    ConsRunTail(IsUrlChar, s[0], rest, h);
    KeptPrefix(s, h);
    UrlMatchByPrefix(r, s);
  }


  /** A run of URL characters at the front of what URL removal makes of `s[1..]`
      was already there in `s`. */
  lemma KeptPrefix(s: string, h: nat)
    requires s != [] && h <= |StripUrls(s[1..])|
    requires forall k :: 0 <= k < h ==> IsUrlChar(StripUrls(s[1..])[k])
    ensures h < |s| && ([s[0]] + StripUrls(s[1..]))[..h + 1] == s[..h + 1]
  {
    LeadRunAtLeast(IsUrlChar, StripUrls(s[1..]), h);
    ScrubAgrees(s[1..], SchemeLen, IsUrlChar, h);
    ConsPrefix(s[0], StripUrls(s[1..]), s[1..], h);
    assert [s[0]] + s[1..] == s;
  }


  /** A text that does not start with 'h' starts no scheme. */
  lemma NoSchemeStart(t: string)
    requires t == [] || t[0] != 'h'
    ensures SchemeLen(t) == 0
  {
    if |t| >= 8 {
      assert t[..8][0] == t[0];
    }
    if |t| >= 7 {
      assert t[..7][0] == t[0];
    }
  }

  /** A text ending in a non-URL character finds the same scheme whatever follows
      it, and that scheme ends before the text does. */
  lemma SchemeBeforeCut(u: string, z: string)
    requires u != [] && !IsUrlChar(u[|u| - 1])
    ensures SchemeLen(u + z) == SchemeLen(u) < |u|
  {
    var s := u + z;
    SchemeIsUrlChars(u);
    SchemeIsUrlChars(s);
    assert s[|u| - 1] == u[|u| - 1];
    if |u| >= 8 {
      assert s[..8] == u[..8];
      assert s[..7] == u[..7];
    } else if |u| >= 7 {
      assert s[..7] == u[..7];
    }
  }

  /** The scheme of a literal "http://" or "https://" is all of it. */
  lemma SchemeOfLiteral(scheme: string, y: string)
    requires scheme == "http://" || scheme == "https://"
    ensures SchemeLen(scheme + y) == |scheme|
    ensures SchemeLen(scheme) == |scheme|
    ensures forall k :: 1 <= k < |scheme| ==> SchemeLen(scheme[k..] + y) == 0 && SchemeLen(scheme[k..]) == 0
  {
    var s := scheme + y;
    if scheme == "http://" {
      if |s| >= 8 {
        assert s[..8][4] == s[4] == ':';
      }
      assert s[..7] == scheme;
    } else {
      assert s[..8] == scheme;
    }
    forall k | 1 <= k < |scheme|
      ensures SchemeLen(scheme[k..] + y) == 0 && SchemeLen(scheme[k..]) == 0
    {
      assert (scheme[k..] + y)[0] == scheme[k] != 'h';
      assert scheme[k..][0] == scheme[k];
      NoSchemeStart(scheme[k..]);
      NoSchemeStart(scheme[k..] + y);
    }
  }

  /** A literal scheme that no URL character follows is kept. */
  lemma SchemeKept(scheme: string, y: string)
    requires scheme == "http://" || scheme == "https://"
    requires y == [] || !IsUrlChar(y[0])
    ensures StripUrls(scheme + y) == scheme + StripUrls(y)
  {
    SchemeOfLiteral(scheme, y);
    forall k | 0 <= k < |scheme|
      ensures SchemeLen(scheme[k..] + y) == SchemeLen(scheme[k..]) <= |scheme| - k
    {
      if k == 0 {
        assert scheme[0..] == scheme;
      }
    }
    ScrubSplit(scheme, y, SchemeLen, IsUrlChar);
    forall i | 0 <= i <= |scheme|
      ensures !MatchAt(scheme[i..], SchemeLen, IsUrlChar)
    {
      if i == 0 {
        assert scheme[0..] == scheme;
      } else if i == |scheme| {
        assert scheme[i..] == [];
      }
    }
    ScrubFixpoint(scheme, SchemeLen, IsUrlChar);
  }

  /** Text ending in a non-URL character is cut cleanly from whatever follows. */
  lemma UrlCutAfterNonUrl(x: string, z: string)
    requires x != [] && !IsUrlChar(x[|x| - 1])
    ensures StripUrls(x + z) == StripUrls(x) + StripUrls(z)
  {
    forall k | 0 <= k < |x|
      ensures SchemeLen(x[k..] + z) == SchemeLen(x[k..]) < |x| - k
    {
      assert x[k..][|x[k..]| - 1] == x[|x| - 1];
      SchemeBeforeCut(x[k..], z);
    }
    ScrubSplit(x, z, SchemeLen, IsUrlChar);
  }

  /** No URL starts in `v`, and no scheme starting in `v` reaches its end: nothing
      in `v` can run on into text placed after it. */
  predicate NoOpenUrl(v: string) {
    NoUrl(v) && forall k :: 0 <= k < |v| ==> SchemeLen(v[k..]) < |v| - k
  }

  /** A scheme that ends inside `u` stays the same when text starting with 'h' is
      appended: 'h' occurs in "http://" and "https://" only at their first
      position, so it cannot complete a scheme begun in `u`. */
  lemma SchemeBeforeH(u: string, z: string)
    requires u != [] && SchemeLen(u) < |u|
    requires z == [] || z[0] == 'h'
    ensures SchemeLen(u + z) == SchemeLen(u)
  {
    var s := u + z;
    if |u| >= 8 {
      assert s[..8] == u[..8];
      assert s[..7] == u[..7];
    } else {
      if |s| >= 8 {
        assert s[..8][|u|] == z[0] == 'h';
        assert "https://"[|u|] != 'h';
      }
      if |s| >= 7 {
        if |u| < 7 {
          assert s[..7][|u|] == z[0] == 'h';
          assert "http://"[|u|] != 'h';
        } else {
          assert s[..7] == u[..7];
        }
      }
    }
  }

  /** Text with no open URL, followed by text starting with 'h' (such as a
      scheme), is kept whole by URL removal. */
  lemma OpenUrlFreePrefix(v: string, z: string)
    requires NoOpenUrl(v)
    requires z == [] || z[0] == 'h'
    ensures StripUrls(v + z) == v + StripUrls(z)
  {
    forall k | 0 <= k < |v|
      ensures !MatchAt(v[k..] + z, SchemeLen, IsUrlChar)
    {
      var u := v[k..];
      SchemeBeforeH(u, z);
      assert !MatchAt(u, SchemeLen, IsUrlChar);
      if 0 < SchemeLen(u) {
        assert (u + z)[SchemeLen(u)] == u[SchemeLen(u)];
      }
    }
    ScrubKeepsPrefix(v, z, SchemeLen, IsUrlChar);
  }

  /** The text before a URL or a bare scheme, split at its last non-URL character
      `x` and the rest `v`, is cleaned as `x` on its own followed by `v` kept whole. */
  lemma BeforeScheme(x: string, v: string, z: string)
    requires x == [] || !IsUrlChar(x[|x| - 1])
    requires NoOpenUrl(v)
    requires z == [] || z[0] == 'h'
    ensures StripUrls(x + v + z) == StripUrls(x) + v + StripUrls(z)
  {
    OpenUrlFreePrefix(v, z);
    ConcatAssoc(x, v, z);
    ConcatAssoc(StripUrls(x), v, StripUrls(z));
    if x != [] {
      UrlCutAfterNonUrl(x, v + z);
    } else {
      assert x + (v + z) == v + z;
      assert StripUrls(x) == [];
    }
  }

  /** A bare "http://" or "https://" that no URL character follows is kept. The
      text before it is cleaned on its own, provided nothing in it is still an
      open URL or scheme when the bare scheme begins; so is the text after it. */
  lemma BareSchemeSurvives(x: string, v: string, scheme: string, y: string)
    requires scheme == "http://" || scheme == "https://"
    requires x == [] || !IsUrlChar(x[|x| - 1])
    requires NoOpenUrl(v)
    requires y == [] || !IsUrlChar(y[0])
    ensures StripUrls(x + v + scheme + y) == StripUrls(x) + v + scheme + StripUrls(y)
  {
    var z := scheme + y;
    SchemeKept(scheme, y);
    assert z[0] == scheme[0] == 'h';
    BeforeScheme(x, v, z);
    ConcatAssoc(x + v, scheme, y);
    ConcatAssoc(StripUrls(x) + v, scheme, StripUrls(y));
  }

  /** A URL, that is a scheme followed by a maximal run of URL characters, is
      deleted whole, and nothing else is. The text before it is `x`, empty or ending
      in a non-URL character, followed by `v`, in which no URL starts and no scheme
      is still open at its end: `x` is cleaned on its own and `v` is kept. The text
      after it is cleaned on its own. */
  lemma UrlDeleted(x: string, v: string, scheme: string, w: string, y: string)
    requires scheme == "http://" || scheme == "https://"
    requires w != [] && forall i :: 0 <= i < |w| ==> IsUrlChar(w[i])
    requires y == [] || !IsUrlChar(y[0])
    requires x == [] || !IsUrlChar(x[|x| - 1])
    requires NoOpenUrl(v)
    ensures StripUrls(x + v + (scheme + w + y)) == StripUrls(x) + v + StripUrls(y)
  {
    var s := scheme + w + y;
    UrlDropped(scheme, w, y);
    assert s[0] == scheme[0] == 'h';
    BeforeScheme(x, v, s);
  }

  /** A URL at the front is deleted up to the first non-URL character. */
  lemma UrlDropped(scheme: string, w: string, y: string)
    requires scheme == "http://" || scheme == "https://"
    requires w != [] && forall i :: 0 <= i < |w| ==> IsUrlChar(w[i])
    requires y == [] || !IsUrlChar(y[0])
    ensures StripUrls(scheme + w + y) == StripUrls(y)
  {
    var u, wy := scheme + w, w + y;
    var s := u + y;
    assert s == scheme + wy;
    SchemeOfLiteral(scheme, wy);
    assert s[|scheme|] == w[0];
    assert s[|scheme|..] == wy;
    forall i | 0 <= i < |w|
      ensures IsUrlChar(wy[i])
    {
      assert wy[i] == w[i];
    }
    if y != [] {
      assert wy[|w|] == y[0];
    }
    LeadRunUnique(IsUrlChar, wy, |w|);
    ScrubDropsMatch(u, y, SchemeLen, IsUrlChar);
  }

  function RemoveUrls(v: Option<string>): (r: Option<string>)
    ensures v.None? <==> r.None?
    ensures v.Some? ==> IsSubseq(r.value, v.value) && NoUrl(r.value)
    ensures v.Some? && NoUrl(v.value) ==> r == v
  {
    match v
    case None => None
    case Some(s) =>
      ScrubSubseq(s, SchemeLen, IsUrlChar);
      UrlsGone(s);
      if NoUrl(s) then ScrubFixpoint(s, SchemeLen, IsUrlChar); Some(StripUrls(s))
      else Some(StripUrls(s))
  }

  // ---------------------------------------------------------------------------
  // Mentions and hashtags (app.py:60-72)
  // ---------------------------------------------------------------------------

  /** The literal `@` or `#` of `@\w+` and `#\w+`. */
  function TagHead(marker: char): string -> nat {
    t => if |t| > 0 && t[0] == marker then 1 else 0
  }

  /** No marker in `s` is immediately followed by a word character. */
  predicate NoTag(s: string, marker: char, isWord: char -> bool) {
    forall i :: 0 <= i < |s| - 1 && s[i] == marker ==> !isWord(s[i + 1])
  }

  lemma NoTagIsNoMatch(s: string, marker: char, isWord: char -> bool)
    ensures NoTag(s, marker, isWord) <==> NoMatch(s, TagHead(marker), isWord)
  {
    if NoTag(s, marker, isWord) {
      forall i | 0 <= i <= |s|
        ensures !MatchAt(s[i..], TagHead(marker), isWord)
      {
        if i < |s| - 1 {
          assert s[i..][0] == s[i] && s[i..][1] == s[i + 1];
        }
      }
    }
    if NoMatch(s, TagHead(marker), isWord) {
      forall i | 0 <= i < |s| - 1 && s[i] == marker
        ensures !isWord(s[i + 1])
      {
        assert !MatchAt(s[i..], TagHead(marker), isWord);
        assert s[i..][0] == s[i] && s[i..][1] == s[i + 1];
      }
    }
  }

  /** `re.sub(marker + r'\w+', '', s)`. */
  function StripTags(cc: CharClasses, marker: char, s: string): (r: string)
  {
    Scrub(s, TagHead(marker), cc.isWord)
  }

  /** After tag removal no marker is followed by a word character: a marker kept
      because a non-word character followed it is still followed by one. */
  lemma {:induction false} TagsGone(cc: CharClasses, marker: char, s: string)
    ensures NoTag(StripTags(cc, marker, s), marker, cc.isWord)
    decreases |s|
  {
    var r := StripTags(cc, marker, s);
    if s != [] {
      if MatchAt(s, TagHead(marker), cc.isWord) {
        TagsGone(cc, marker, s[MatchLen(s, TagHead(marker), cc.isWord)..]);
      } else {
        var rest := StripTags(cc, marker, s[1..]);
        TagsGone(cc, marker, s[1..]);
        assert r == [s[0]] + rest;
        if s[0] == marker {
          ScrubStartsClean(s[1..], TagHead(marker), cc.isWord);
        }
        forall i | 0 <= i < |r| - 1 && r[i] == marker
          ensures !cc.isWord(r[i + 1])
        {
          if i > 0 {
            assert r[i] == rest[i - 1] && r[i + 1] == rest[i];
          }
        }
      }
    }
  }

  /** A marker that no word character follows is kept, and the text on either
      side of it is cleaned on its own (the marker itself is not a word character). */
  lemma TagSurvives(cc: CharClasses, marker: char, x: string, y: string)
    requires !cc.isWord(marker)
    requires y == [] || !cc.isWord(y[0])
    ensures StripTags(cc, marker, x + [marker] + y) == StripTags(cc, marker, x) + [marker] + StripTags(cc, marker, y)
  {
    var head := TagHead(marker);
    var z := [marker] + y;
    forall k | 0 <= k < |x|
      ensures head(x[k..] + z) == head(x[k..]) <= |x| - k
    {
      assert (x[k..] + z)[0] == x[k..][0];
    }
    ScrubSplit(x, z, head, cc.isWord);
    assert !MatchAt(z, head, cc.isWord);
    assert z[1..] == y;
    ConcatAssoc(x, [marker], y);
    ConcatAssoc(StripTags(cc, marker, x), [marker], StripTags(cc, marker, y));
  }

  /** A tag, that is the marker followed by a maximal run of word characters, is
      deleted whole, and the text on either side of it is cleaned on its own. */
  lemma TagDeleted(cc: CharClasses, marker: char, x: string, w: string, y: string)
    requires !cc.isWord(marker)
    requires w != [] && forall i :: 0 <= i < |w| ==> cc.isWord(w[i])
    requires y == [] || !cc.isWord(y[0])
    ensures StripTags(cc, marker, x + ([marker] + w + y)) == StripTags(cc, marker, x) + StripTags(cc, marker, y)
  {
    TagCutBeforeMarker(cc, marker, x, [marker] + w + y);
    TagDropped(cc, marker, w, y);
  }

  /** Text followed by a marker, which is no word character, is cleaned
      independently of what follows. */
  lemma TagCutBeforeMarker(cc: CharClasses, marker: char, x: string, z: string)
    requires !cc.isWord(marker) && z != [] && z[0] == marker
    ensures StripTags(cc, marker, x + z) == StripTags(cc, marker, x) + StripTags(cc, marker, z)
  {
    var head := TagHead(marker);
    forall k | 0 <= k < |x|
      ensures head(x[k..] + z) == head(x[k..]) <= |x| - k
    {
      assert (x[k..] + z)[0] == x[k..][0];
    }
    ScrubSplit(x, z, head, cc.isWord);
  }

  /** A tag at the front is deleted up to the end of its word. */
  lemma TagDropped(cc: CharClasses, marker: char, w: string, y: string)
    requires w != [] && forall i :: 0 <= i < |w| ==> cc.isWord(w[i])
    requires y == [] || !cc.isWord(y[0])
    ensures StripTags(cc, marker, [marker] + w + y) == StripTags(cc, marker, y)
  {
    var head := TagHead(marker);
    var u, wy := [marker] + w, w + y;
    var z := u + y;
    assert z[0] == marker && z[1] == w[0];
    assert z[1..] == wy;
    forall i | 0 <= i < |w|
      ensures cc.isWord(wy[i])
    {
      assert wy[i] == w[i];
    }
    if y != [] {
      assert wy[|w|] == y[0];
    }
    LeadRunUnique(cc.isWord, wy, |w|);
    ScrubDropsMatch(u, y, head, cc.isWord);
  }

  /** `@\w+` removal on a nullable cell. */
  function RemoveMentions(cc: CharClasses, v: Option<string>): (r: Option<string>)
    ensures v.None? <==> r.None?
    ensures v.Some? ==> IsSubseq(r.value, v.value) && NoTag(r.value, '@', cc.isWord)
    ensures v.Some? && NoTag(v.value, '@', cc.isWord) ==> r == v
  {
    match v
    case None => None
    case Some(s) => Some(RemoveTagsFrom(cc, '@', s))
  }

  /** `#\w+` removal on a nullable cell. */
  function RemoveHashtags(cc: CharClasses, v: Option<string>): (r: Option<string>)
    ensures v.None? <==> r.None?
    ensures v.Some? ==> IsSubseq(r.value, v.value) && NoTag(r.value, '#', cc.isWord)
    ensures v.Some? && NoTag(v.value, '#', cc.isWord) ==> r == v
  {
    match v
    case None => None
    case Some(s) => Some(RemoveTagsFrom(cc, '#', s))
  }

  /** Tag removal on a present value, with what it guarantees. */
  function RemoveTagsFrom(cc: CharClasses, marker: char, s: string): (r: string)
    ensures IsSubseq(r, s) && NoTag(r, marker, cc.isWord)
    ensures NoTag(s, marker, cc.isWord) ==> r == s
  {
    ScrubSubseq(s, TagHead(marker), cc.isWord);
    TagsGone(cc, marker, s);
    NoTagIsNoMatch(s, marker, cc.isWord);
    if NoTag(s, marker, cc.isWord) then ScrubFixpoint(s, TagHead(marker), cc.isWord); StripTags(cc, marker, s)
    else StripTags(cc, marker, s)
  }

  // ---------------------------------------------------------------------------
  // Repeated punctuation (app.py:82-88)
  // ---------------------------------------------------------------------------

  /** `re.sub(r'([!?.]){3,}', r'\1', s)`: a run of three or more characters from
      {!, ?, .}, mixed or not, becomes the last character of the run (the group
      keeps its last repetition). */
  function Squeeze(s: string): (r: string)
    decreases |s|
  {
    if s == [] then []
    else
      var k := LeadRun(IsRepeatPunct, s);
      if k >= 3 then [s[k - 1]] + Squeeze(s[k..]) else [s[0]] + Squeeze(s[1..])
  }

  /** Three punctuation characters of the class in a row start at `i`. */
  predicate LongRunAt(s: string, i: int) {
    0 <= i && i + 2 < |s| && IsRepeatPunct(s[i]) && IsRepeatPunct(s[i + 1]) && IsRepeatPunct(s[i + 2])
  }

  predicate NoLongRun(s: string) {
    forall i :: 0 <= i < |s| ==> !LongRunAt(s, i)
  }

  function Capped(k: nat): nat {
    if k >= 3 then 1 else k
  }

  lemma ConsRun(c: char, t: string)
    ensures LeadRun(IsRepeatPunct, [c] + t) == if IsRepeatPunct(c) then 1 + LeadRun(IsRepeatPunct, t) else 0
  {
    assert ([c] + t)[1..] == t;
  }

  lemma ConsNoLongRun(c: char, t: string)
    requires NoLongRun(t)
    requires IsRepeatPunct(c) ==> LeadRun(IsRepeatPunct, t) <= 1
    ensures NoLongRun([c] + t)
  {
    var u := [c] + t;
    forall i | 0 <= i < |u|
      ensures !LongRunAt(u, i)
    {
      if i > 0 {
        assert !LongRunAt(t, i - 1);
      } else if IsRepeatPunct(c) && |t| >= 2 && IsRepeatPunct(t[0]) {
        assert t[1..][0] == t[1];
        assert u[1] == t[0] && u[2] == t[1];
      }
    }
  }

  /** One step of squeezing: the first output character and the rest of the input. */
  lemma SqueezeStep(s: string)
    requires s != []
    ensures var k := LeadRun(IsRepeatPunct, s);
      k >= 3 ==> Squeeze(s) == [s[k - 1]] + Squeeze(s[k..]) && LeadRun(IsRepeatPunct, s[k..]) == 0
    ensures var k := LeadRun(IsRepeatPunct, s);
      k < 3 ==> (Squeeze(s) == [s[0]] + Squeeze(s[1..])
        && (IsRepeatPunct(s[0]) ==> LeadRun(IsRepeatPunct, s[1..]) == k - 1))
  {
    var k := LeadRun(IsRepeatPunct, s);
    if k >= 3 {
      assert Squeeze(s) == [s[k - 1]] + Squeeze(s[k..]);
      if k < |s| {
        assert s[k..][0] == s[k];
      }
    } else {
      assert Squeeze(s) == [s[0]] + Squeeze(s[1..]);
    }
  }

  /** The squeezed text has no run of three, and its leading run is the original
      leading run capped to one character when it was long. */
  lemma {:induction false} SqueezeShape(s: string)
    ensures NoLongRun(Squeeze(s))
    ensures LeadRun(IsRepeatPunct, Squeeze(s)) == Capped(LeadRun(IsRepeatPunct, s))
    decreases |s|
  {
    if s != [] {
      var k := LeadRun(IsRepeatPunct, s);
      SqueezeStep(s);
      var next := if k >= 3 then k else 1;
      var c := if k >= 3 then s[k - 1] else s[0];
      SqueezeShape(s[next..]);
      ConsRun(c, Squeeze(s[next..]));
      ConsNoLongRun(c, Squeeze(s[next..]));
    }
  }

  /** Text with no run of three is left as it is. */
  lemma {:induction false} SqueezeFixpoint(s: string)
    requires NoLongRun(s)
    ensures Squeeze(s) == s
    decreases |s|
  {
    if s != [] {
      var k := LeadRun(IsRepeatPunct, s);
      if k >= 3 {
        assert LongRunAt(s, 0);
      }
      forall i | 0 <= i < |s[1..]|
        ensures !LongRunAt(s[1..], i)
      {
        assert !LongRunAt(s, i + 1);
      }
      SqueezeFixpoint(s[1..]);
    }
  }

  /** A run of three or more becomes its last character. */
  lemma {:induction false} SqueezeLongRun(s: string)
    requires |s| >= 3 && forall i :: 0 <= i < |s| ==> IsRepeatPunct(s[i])
    ensures Squeeze(s) == [s[|s| - 1]]
  {
    AllRun(s);
    assert s[|s|..] == [];
  }

  lemma {:induction false} AllRun(s: string)
    requires forall i :: 0 <= i < |s| ==> IsRepeatPunct(s[i])
    ensures LeadRun(IsRepeatPunct, s) == |s|
    decreases |s|
  {
    if s != [] {
      AllRun(s[1..]);
    }
  }

  /** Squeezing works piecewise when the cut is not inside a run. */
  lemma {:induction false} SqueezeAppend(x: string, y: string)
    requires x == [] || y == [] || !IsRepeatPunct(x[|x| - 1]) || !IsRepeatPunct(y[0])
    ensures Squeeze(x + y) == Squeeze(x) + Squeeze(y)
    decreases |x|
  {
    if x == [] {
      assert x + y == y;
    } else {
      var next, c := SqueezeAppendStep(x, y);
      SqueezeAppend(x[next..], y);
      calc {
        Squeeze(x + y);
        [c] + Squeeze(x[next..] + y);
        [c] + (Squeeze(x[next..]) + Squeeze(y));
        { ConcatAssoc([c], Squeeze(x[next..]), Squeeze(y)); }
        ([c] + Squeeze(x[next..])) + Squeeze(y);
        Squeeze(x) + Squeeze(y);
      }
    }
  }

  /** The first step of squeezing `x + y` is the first step of squeezing `x`. */
  lemma SqueezeAppendStep(x: string, y: string) returns (next: nat, c: char)
    requires x != []
    requires y == [] || !IsRepeatPunct(x[|x| - 1]) || !IsRepeatPunct(y[0])
    ensures 0 < next <= |x|
    ensures Squeeze(x + y) == [c] + Squeeze(x[next..] + y)
    ensures Squeeze(x) == [c] + Squeeze(x[next..])
    ensures x[next..] == [] || y == [] || !IsRepeatPunct(x[next..][|x[next..]| - 1]) || !IsRepeatPunct(y[0])
  {
    var xy := x + y;
    RunOfAppend(x, y);
    assert LeadRun(IsRepeatPunct, xy) == LeadRun(IsRepeatPunct, x);
    next, c := SqueezeFront(x);
    var n2, c2 := SqueezeFront(xy);
    assert n2 == next;
    assert xy[next - 1] == x[next - 1];
    DropAppend(x, y, next);
  }

  /** The first step of squeezing in one piece: the scan emits the last character
      of the part it consumes and resumes after it. */
  lemma SqueezeFront(s: string) returns (next: nat, c: char)
    requires s != []
    ensures next == if LeadRun(IsRepeatPunct, s) >= 3 then LeadRun(IsRepeatPunct, s) else 1
    ensures 0 < next <= |s| && c == s[next - 1]
    ensures Squeeze(s) == [c] + Squeeze(s[next..])
  {
    var k := LeadRun(IsRepeatPunct, s);
    next := if k >= 3 then k else 1;
    c := s[next - 1];
  }


  lemma DropAppend(x: string, y: string, n: nat)
    requires n <= |x|
    ensures (x + y)[n..] == x[n..] + y
    ensures n < |x| ==> x[n..][|x[n..]| - 1] == x[|x| - 1]
  {
  }

  /** The leading run of `x + y` when `y` cannot extend a run that fills `x`. */
  lemma {:induction false} RunOfAppend(x: string, y: string)
    requires x != []
    requires y == [] || !IsRepeatPunct(x[|x| - 1]) || !IsRepeatPunct(y[0])
    ensures LeadRun(IsRepeatPunct, x) < |x| ==> LeadRun(IsRepeatPunct, x + y) == LeadRun(IsRepeatPunct, x)
    ensures LeadRun(IsRepeatPunct, x) == |x| ==> LeadRun(IsRepeatPunct, x + y) == |x|
    decreases |x|
  {
    var xy := x + y;
    assert xy[0] == x[0];
    if IsRepeatPunct(x[0]) {
      if |x| > 1 {
        assert xy[1..] == x[1..] + y;
        RunOfAppend(x[1..], y);
      } else {
        assert xy[1..] == y;
      }
    }
  }

  function RemoveSpecialChars(v: Option<string>): (r: Option<string>)
    ensures v.None? <==> r.None?
    ensures v.Some? ==> NoLongRun(r.value)
    ensures v.Some? && NoLongRun(v.value) ==> r == v
  {
    match v
    case None => None
    case Some(s) =>
      SqueezeShape(s);
      if NoLongRun(s) then SqueezeFixpoint(s); Some(Squeeze(s)) else Some(Squeeze(s))
  }

  // ---------------------------------------------------------------------------
  // Whitespace (app.py:74-80)
  // ---------------------------------------------------------------------------

  predicate NotSpace(c: char) {
    !IsSpace(c)
  }

  /** `re.sub(r'\s+', ' ', s)`. */
  function Squash(s: string): (r: string)
    decreases |s|
  {
    if s == [] then []
    else
      var k := LeadRun(IsSpace, s);
      if k > 0 then [' '] + Squash(s[k..]) else [s[0]] + Squash(s[1..])
  }

  /** `str.strip()`: drop leading and trailing whitespace. */
  function Strip(s: string): (r: string)
    ensures r == [] <==> forall i :: 0 <= i < |s| ==> IsSpace(s[i])
    ensures r != [] ==> !IsSpace(r[0]) && !IsSpace(r[|r| - 1])
    ensures |r| <= |s|
  {
    var a := LeadRun(IsSpace, s);
    var t := s[a..];
    t[..|t| - TrailRun(IsSpace, t)]
  }

  /** Every whitespace character is a single ' ' with a non-whitespace character on
      each side; so there is none at either end and never two in a row. */
  predicate Normalized(s: string) {
    forall i :: 0 <= i < |s| && IsSpace(s[i]) ==>
      s[i] == ' ' && 0 < i < |s| - 1 && !IsSpace(s[i - 1]) && !IsSpace(s[i + 1])
  }

  /** Every whitespace character is ' ' and is not followed by another one. */
  predicate SpacesSingle(s: string) {
    forall i :: 0 <= i < |s| && IsSpace(s[i]) ==> s[i] == ' ' && (i + 1 < |s| ==> !IsSpace(s[i + 1]))
  }

  lemma SquashHead(s: string)
    requires s != []
    ensures Squash(s) != []
    ensures IsSpace(Squash(s)[0]) <==> IsSpace(s[0])
  {
  }

  lemma {:induction false} SquashShape(s: string)
    ensures SpacesSingle(Squash(s))
    decreases |s|
  {
    if s != [] {
      var k := LeadRun(IsSpace, s);
      var rest := if k > 0 then s[k..] else s[1..];
      SquashShape(rest);
      var r := Squash(s);
      var q := Squash(rest);
      assert r == (if k > 0 then [' '] else [s[0]]) + q;
      if k > 0 && rest != [] {
        SquashHead(rest);
      }
      forall i | 0 <= i < |r| && IsSpace(r[i])
        ensures r[i] == ' ' && (i + 1 < |r| ==> !IsSpace(r[i + 1]))
      {
        if i > 0 {
          assert r[i] == q[i - 1];
          if i + 1 < |r| {
            assert r[i + 1] == q[i];
          }
        } else if i + 1 < |r| {
          assert r[1] == q[0];
        }
      }
    }
  }

  lemma {:induction false} SquashFixpoint(s: string)
    requires SpacesSingle(s)
    ensures Squash(s) == s
    decreases |s|
  {
    if s != [] {
      SpacesSingleTail(s);
      SquashFixpoint(s[1..]);
      if IsSpace(s[0]) {
        if |s| > 1 {
          assert s[1..][0] == s[1];
        }
        LeadRunUnique(IsSpace, s, 1);
        assert Squash(s) == [' '] + Squash(s[1..]);
      } else {
        assert Squash(s) == [s[0]] + Squash(s[1..]);
      }
      assert s == [s[0]] + s[1..];
    }
  }

  lemma SpacesSingleTail(s: string)
    requires s != [] && SpacesSingle(s)
    ensures SpacesSingle(s[1..])
  {
    forall i | 0 <= i < |s[1..]| && IsSpace(s[1..][i])
      ensures s[1..][i] == ' ' && (i + 1 < |s[1..]| ==> !IsSpace(s[1..][i + 1]))
    {
      assert s[1..][i] == s[i + 1];
    }
  }


  /** Stripping text whose whitespace is single spaces leaves it normalized. */
  lemma StripNormalizes(t: string)
    requires SpacesSingle(t)
    ensures Normalized(Strip(t))
  {
    var a, b := StripSlice(t);
    var r := Strip(t);
    forall i | 0 <= i < |r| && IsSpace(r[i])
      ensures r[i] == ' ' && 0 < i < |r| - 1 && !IsSpace(r[i - 1]) && !IsSpace(r[i + 1])
    {
      assert r[i] == t[a + i];
      assert 0 < i < |r| - 1;
      assert r[i + 1] == t[a + i + 1];
      assert r[i - 1] == t[a + i - 1];
      assert !IsSpace(t[a + i - 1]);
    }
  }

  lemma StripFixpoint(s: string)
    requires s == [] || (!IsSpace(s[0]) && !IsSpace(s[|s| - 1]))
    ensures Strip(s) == s
  {
  }

  /** The non-whitespace characters of `s`, in order. */
  function Visible(s: string): string {
    Filter(s, NotSpace)
  }

  lemma {:induction false} SquashKeepsVisible(s: string)
    ensures Visible(Squash(s)) == Visible(s)
    decreases |s|
  {
    if s != [] {
      var c, n := SquashVisibleStep(s);
      SquashKeepsVisible(s[n..]);
      FilterAppend([c], Squash(s[n..]), NotSpace);
      FilterSplitAt(s, n, NotSpace);
    }
  }

  /** One step of collapsing emits a character with the same visible part as
      the characters it consumes. */
  lemma SquashVisibleStep(s: string) returns (c: char, n: nat)
    requires s != []
    ensures 0 < n <= |s| && Squash(s) == [c] + Squash(s[n..])
    ensures Visible([c]) == Visible(s[..n])
  {
    var k := LeadRun(IsSpace, s);
    if k > 0 {
      c, n := ' ', k;
      forall i | 0 <= i < |s[..k]|
        ensures !NotSpace(s[..k][i])
      {
        assert s[..k][i] == s[i];
      }
      FilterNone(s[..k], NotSpace);
      assert Filter([' '], NotSpace) == [] + Filter([], NotSpace);
    } else {
      c, n := s[0], 1;
      assert s[..1] == [c];
    }
  }

  /** `Strip` cuts whitespace off both ends and keeps the middle. */
  lemma StripSlice(s: string) returns (a: nat, b: nat)
    ensures a <= b <= |s| && Strip(s) == s[a..b]
    ensures forall i :: 0 <= i < a ==> IsSpace(s[i])
    ensures forall i :: b <= i < |s| ==> IsSpace(s[i])
  {
    a := LeadRun(IsSpace, s);
    var u := s[a..];
    b := a + |u| - TrailRun(IsSpace, u);
    assert Strip(s) == s[a..b];
    forall i | b <= i < |s|
      ensures IsSpace(s[i])
    {
      assert s[i] == u[i - a];
    }
  }

  lemma StripKeepsVisible(s: string)
    ensures Visible(Strip(s)) == Visible(s)
  {
    var a, b := StripSlice(s);
    var front, mid, back := s[..a], s[a..b], s[b..];
    forall i | 0 <= i < |front|
      ensures !NotSpace(front[i])
    {
      assert front[i] == s[i];
    }
    forall i | 0 <= i < |back|
      ensures !NotSpace(back[i])
    {
      assert back[i] == s[b + i];
    }
    var seen := Filter(mid, NotSpace);
    FilterNone(front, NotSpace);
    FilterNone(back, NotSpace);
    FilterAppend(mid, back, NotSpace);
    assert seen + [] == seen;
    FilterAppend(front, mid + back, NotSpace);
    assert [] + seen == seen;
    SliceSplit(s, a, b);
  }


  lemma NoLongRunSlice(s: string, a: nat, b: nat)
    requires a <= b <= |s| && NoLongRun(s)
    ensures NoLongRun(s[a..b])
  {
    var t := s[a..b];
    forall i | 0 <= i < |t|
      ensures !LongRunAt(t, i)
    {
      assert !LongRunAt(s, a + i);
      if i + 2 < |t| {
        assert t[i] == s[a + i] && t[i + 1] == s[a + i + 1] && t[i + 2] == s[a + i + 2];
      }
    }
  }

  /** A punctuation character at the head of squashed text is the input's own head. */
  lemma SquashPunctHead(t: string)
    requires t != []
    ensures Squash(t) != []
    ensures IsRepeatPunct(Squash(t)[0]) ==> Squash(t) == [t[0]] + Squash(t[1..])
  {
  }

  /** Collapsing whitespace never joins punctuation into a run of three: every
      whitespace run becomes a space, which is not punctuation. */
  lemma {:induction false} SquashKeepsNoLongRun(s: string)
    requires NoLongRun(s)
    ensures NoLongRun(Squash(s))
    decreases |s|
  {
    if s != [] {
      var k := LeadRun(IsSpace, s);
      var rest := if k > 0 then s[k..] else s[1..];
      NoLongRunSlice(s, |s| - |rest|, |s|);
      assert s[|s| - |rest|..|s|] == rest;
      SquashKeepsNoLongRun(rest);
      var q := Squash(rest);
      var c := if k > 0 then ' ' else s[0];
      assert Squash(s) == [c] + q;
      if k == 0 && IsRepeatPunct(s[0]) && |q| >= 2 && IsRepeatPunct(q[0]) {
        SquashPunctHead(rest);
        assert rest[0] == s[1] && rest[1..] == s[2..];
        var q2 := Squash(s[2..]);
        assert q == [s[1]] + q2 && q[1] == q2[0];
        SquashPunctHead(s[2..]);
        assert !LongRunAt(s, 0);
      }
      ConsNoLongRun(c, q);
    }
  }

  lemma NormalizeKeepsNoLongRun(s: string)
    ensures NoLongRun(s) ==> NoLongRun(Strip(Squash(s)))
  {
    if NoLongRun(s) {
      SquashKeepsNoLongRun(s);
      var a, b := StripSlice(Squash(s));
      NoLongRunSlice(Squash(s), a, b);
    }
  }

  /** What collapsing and stripping whitespace guarantees, one fact at a time. */
  lemma NormalizeFacts(s: string)
    ensures Normalized(Strip(Squash(s)))
    ensures Visible(Strip(Squash(s))) == Visible(s)
  {
    SquashShape(s);
    StripNormalizes(Squash(s));
    SquashKeepsVisible(s);
    StripKeepsVisible(Squash(s));
  }

  /** Normalized text is left as it is. */
  lemma NormalizeFixpoint(s: string)
    requires Normalized(s)
    ensures Strip(Squash(s)) == s
  {
    assert SpacesSingle(s);
    SquashFixpoint(s);
    StripFixpoint(s);
  }

  /** Collapsing works piecewise across a cut that does not fall inside a run of
      whitespace. */
  lemma {:induction false} SquashSplit(x: string, z: string)
    requires x == [] || z == [] || !IsSpace(x[|x| - 1]) || !IsSpace(z[0])
    ensures Squash(x + z) == Squash(x) + Squash(z)
    decreases |x|
  {
    if x == [] {
      assert x + z == z;
    } else {
      var c, n := SquashSplitStep(x, z);
      var rest := x[n..];
      if rest != [] {
        assert rest[|rest| - 1] == x[|x| - 1];
      }
      SquashSplit(rest, z);
      ConcatAssoc([c], Squash(rest), Squash(z));
    }
  }

  /** One step of collapsing on both sides of a cut that is not inside a run:
      the same character `c` is emitted and collapsing resumes at `n` in `x`. */
  lemma SquashSplitStep(x: string, z: string) returns (c: char, n: nat)
    requires x != [] && (z == [] || !IsSpace(x[|x| - 1]) || !IsSpace(z[0]))
    ensures 0 < n <= |x|
    ensures Squash(x + z) == [c] + Squash(x[n..] + z)
    ensures Squash(x) == [c] + Squash(x[n..])
  {
    var s := x + z;
    var k := LeadRun(IsSpace, x);
    n := if k > 0 then k else 1;
    c := if k > 0 then ' ' else x[0];
    if k == |x| {
      assert IsSpace(x[|x| - 1]);
    }
    LeadRunAppend(IsSpace, x, z);
    assert s[0] == x[0];
    assert s[n..] == x[n..] + z;
  }

  /** A whole run of whitespace becomes one ' ', and the text on either side of
      it is collapsed on its own. */
  lemma SquashRun(x: string, w: string, z: string)
    requires w != [] && forall i :: 0 <= i < |w| ==> IsSpace(w[i])
    requires x == [] || !IsSpace(x[|x| - 1])
    requires z == [] || !IsSpace(z[0])
    ensures Squash(x + w + z) == Squash(x) + [' '] + Squash(z)
  {
    var wz := w + z;
    LeadRunUnique(IsSpace, w, |w|);
    LeadRunAppend(IsSpace, w, z);
    assert wz[0] == w[0];
    assert wz[|w|..] == z;
    assert Squash(wz) == [' '] + Squash(z);
    SquashSplit(x, wz);
    ConcatAssoc(x, w, z);
    ConcatAssoc(Squash(x), [' '], Squash(z));
  }

  /** Text ending in a visible character still ends in it after collapsing. */
  lemma SquashLast(x: string)
    requires x != [] && !IsSpace(x[|x| - 1])
    ensures Squash(x) != [] && Squash(x)[|Squash(x)| - 1] == x[|x| - 1]
  {
    var init, last := x[..|x| - 1], x[|x| - 1];
    InitLast(x);
    SquashSplit(init, [last]);
    assert Squash([last]) == [last] + Squash([]);
  }

  /** `strip` keeps exactly the slice between a whitespace prefix and a whitespace
      suffix that it cannot extend. */
  lemma StripUnique(s: string, a: nat, b: nat)
    requires a <= b <= |s|
    requires forall i :: 0 <= i < a ==> IsSpace(s[i])
    requires forall i :: b <= i < |s| ==> IsSpace(s[i])
    requires a < b ==> !IsSpace(s[a]) && !IsSpace(s[b - 1])
    ensures Strip(s) == s[a..b]
  {
    TrimUnique(IsSpace, s, a, b);
  }

  /** Stripping text made of two pieces joined by one space, with visible
      characters on both sides of the space, strips each piece. */
  lemma StripJoin(p: string, q: string)
    requires p != [] && !IsSpace(p[|p| - 1])
    requires q != [] && !IsSpace(q[0])
    ensures Strip(p + [' '] + q) == Strip(p) + [' '] + Strip(q)
  {
    var a := LeadRun(IsSpace, p);
    var b := |q| - TrailRun(IsSpace, q);
    StripUnique(p, a, |p|);
    StripUnique(q, 0, b);
    StripJoinSlice(p, q, a, b);
  }

  /** The slice `strip` keeps of two pieces joined by one space runs from the
      first visible character of the first piece to the last of the second. */
  lemma StripJoinSlice(p: string, q: string, a: nat, b: nat)
    requires a < |p| && 0 < b <= |q|
    requires forall i :: 0 <= i < a ==> IsSpace(p[i])
    requires forall i :: b <= i < |q| ==> IsSpace(q[i])
    requires !IsSpace(p[a]) && !IsSpace(q[b - 1])
    ensures Strip(p + [' '] + q) == p[a..|p|] + [' '] + q[0..b]
  {
    var s := p + [' '] + q;
    var e := |p| + 1 + b;
    forall i | 0 <= i < a
      ensures IsSpace(s[i])
    {
      assert s[i] == p[i];
    }
    forall i | e <= i < |s|
      ensures IsSpace(s[i])
    {
      assert s[i] == q[i - |p| - 1];
    }
    assert s[a] == p[a] && s[e - 1] == q[b - 1];
    StripUnique(s, a, e);
    SliceAcrossJoin(p, [' '], q, a, b);
  }

  /** A run of whitespace between two visible characters becomes exactly one ' ',
      and the text on either side is cleaned on its own. */
  lemma NormalizeSplit(x: string, w: string, z: string)
    requires w != [] && forall i :: 0 <= i < |w| ==> IsSpace(w[i])
    requires x != [] && !IsSpace(x[|x| - 1])
    requires z != [] && !IsSpace(z[0])
    ensures NormalizeSpaces(x + w + z) == NormalizeSpaces(x) + [' '] + NormalizeSpaces(z)
  {
    SquashRun(x, w, z);
    SquashLast(x);
    SquashHead(z);
    StripJoin(Squash(x), Squash(z));
  }

  /** `re.sub(r'\s+', ' ', s).strip()`. */
  function NormalizeSpaces(s: string): (r: string)
    ensures Normalized(r)
    ensures Visible(r) == Visible(s)
    ensures Normalized(s) ==> r == s
    ensures NoLongRun(s) ==> NoLongRun(r)
  {
    NormalizeKeepsNoLongRun(s);
    NormalizeFacts(s);
    if Normalized(s) then NormalizeFixpoint(s); Strip(Squash(s)) else Strip(Squash(s))
  }


  function CleanWhitespace(v: Option<string>): (r: Option<string>)
    ensures v.None? ==> r == v
    ensures v.Some? ==> r.Some? && Normalized(r.value) && Visible(r.value) == Visible(v.value)
    ensures v.Some? && Normalized(v.value) ==> r == v
    ensures v.Some? && NoLongRun(v.value) ==> NoLongRun(r.value)
  {
    match v
    case None => None
    case Some(s) => Some(NormalizeSpaces(s))
  }

  /** Normalizing whitespace twice is normalizing it once. */
  lemma CleanWhitespaceIdempotent(v: Option<string>)
    ensures CleanWhitespace(CleanWhitespace(v)) == CleanWhitespace(v)
  {
  }
}
