/** The fixed regular expressions of the Todoist conversion (src/commands/todoist.ts), each
    matched by a hand-written scanner. For every pattern there are two descriptions:
    `Matches` states declaratively which text a JavaScript regex engine reports as the match
    starting at a given position (greedy runs maximal, lazy runs minimal, backtracking into
    lookaheads resolved), and `MatchAt` computes it. `MatchAtCorrect` proves they agree.
    On top of a single-position matcher sit the two ways the source uses a regex: the
    leftmost match (`FirstMatch`, for `match` without the g flag and `replace` of the first
    match) and the successive non-overlapping matches of a global scan (`Scan`, `ReplaceAll`). */
module Patterns {
  import opened Wrappers
  import opened Text

  /** The half-open range s[start..end] that one match covers. */
  datatype Span = Span(start: nat, end: nat)

  /** The patterns, one per regular-expression literal the conversion uses. */
  datatype Pattern =
    | Url         // "http://" or "https://", then a maximal non-empty run of URL characters
    | WrappedUrl  // the same, with an optional "(" before and an optional ")" after
    | List        // "(", an ingredient list over the strict item class, ")"
    | LooseList   // the same, with the item class that also admits an apostrophe
    | Label       // not after a word character: "@", label characters, then a word boundary not followed by ";"
    | Bracket     // "[" or "(", the shortest run of non-line-terminators, then "]" or ")"
    | Slash       // the single character "/"

  /** URL characters: anything but whitespace and ")". */
  predicate IsUrlChar(c: char)
  {
    !IsSpace(c) && c != ')'
  }

  /** Ingredient-list item characters: word characters, whitespace, U+2019 and "/"; the
      removal pattern (loose) also admits the ASCII apostrophe. */
  predicate IsItemChar(c: char, loose: bool)
  {
    IsWordChar(c) || IsSpace(c) || c == '\U{2019}' || c == '/' || (loose && c == '\'')
  }

  /** Characters that may occur between the parentheses of an ingredient list. */
  predicate InList(c: char, loose: bool)
  {
    c == ',' || IsItemChar(c, loose)
  }

  /** Label characters: ASCII letters, "-" and "_". */
  predicate IsLabelChar(c: char)
  {
    ('a' <= c <= 'z') || ('A' <= c <= 'Z') || c == '-' || c == '_'
  }

  predicate IsOpener(c: char)
  {
    c == '[' || c == '('
  }

  predicate IsCloser(c: char)
  {
    c == ']' || c == ')'
  }

  /** Characters the lazy `.` of the bracket pattern may pass over before the closer. */
  predicate InBracket(c: char)
  {
    !IsCloser(c) && !IsLineTerminator(c)
  }

  /* ---------------------------------------------------------------------------------- */
  /* Declarative descriptions of a match                                                 */

  /** s[a..e] is a non-empty run of URL characters that cannot be extended. */
  ghost predicate MaximalUrlRun(s: string, a: nat, e: nat)
  {
    a < e <= |s| && AllIn(s, a, e, IsUrlChar) && (e == |s| || !IsUrlChar(s[e]))
  }

  ghost predicate UrlMatch(s: string, p: nat, e: nat)
  {
    (StartsWithAt(s, p, "http://") && MaximalUrlRun(s, p + 7, e)) ||
    (StartsWithAt(s, p, "https://") && MaximalUrlRun(s, p + 8, e))
  }

  /** Where the optional ")" after a URL ending at m leaves the match. */
  function AfterCloseParen(s: string, m: nat): (e: nat)
    ensures e == m || (m < |s| && s[m] == ')' && e == m + 1)
  {
    if m < |s| && s[m] == ')' then m + 1 else m
  }

  ghost predicate WrappedUrlMatch(s: string, p: nat, e: nat)
  {
    exists m: nat :: (UrlMatch(s, p, m) || (p < |s| && s[p] == '(' && UrlMatch(s, p + 1, m))) &&
                     e == AfterCloseParen(s, m)
  }

  /** The language of an ingredient list's inside: items separated by commas, at least two
      items, every comma followed by whitespace and then a further character that is not a
      comma. This is the regular language "one or more (items, comma, whitespace), then
      items" written position by position: whitespace is itself an item character. */
  predicate IsListBody(t: string, loose: bool)
  {
    |t| > 0 && t[0] != ',' &&
    (forall k :: 0 <= k < |t| ==> InList(t[k], loose)) &&
    (exists k :: 0 <= k < |t| && t[k] == ',') &&
    (forall k :: 0 <= k < |t| && t[k] == ',' ==> k + 2 < |t| && IsSpace(t[k + 1]) && t[k + 2] != ',')
  }

  ghost predicate ListMatch(s: string, p: nat, e: nat, loose: bool)
  {
    p + 2 <= e <= |s| && s[p] == '(' && s[e - 1] == ')' && IsListBody(s[p + 1..e - 1], loose)
  }

  /** The end condition of a label: a word boundary (`\b`) that is not followed by ";". */
  predicate LabelAccepts(s: string, e: nat)
  {
    IsBoundary(s, e) && !(e < |s| && s[e] == ';')
  }

  /** A label token: "@" at a non-boundary (`\B`), then label characters up to the LONGEST end
      that the boundary and the ";" lookahead accept (the engine backtracks from the longest
      run one character at a time). */
  ghost predicate LabelMatch(s: string, p: nat, e: nat)
  {
    p + 2 <= e <= |s| && s[p] == '@' && !IsBoundary(s, p) &&
    AllIn(s, p + 1, e, IsLabelChar) && LabelAccepts(s, e) &&
    forall e' :: e < e' <= |s| && AllIn(s, p + 1, e', IsLabelChar) ==> !LabelAccepts(s, e')
  }

  /** A bracketed segment: an opener, then the SHORTEST run of non-line-terminator characters
      before a closer (the lazy `.*?`); the brackets need not be of the same kind. */
  ghost predicate BracketMatch(s: string, p: nat, e: nat)
  {
    p + 2 <= e <= |s| && IsOpener(s[p]) && IsCloser(s[e - 1]) && AllIn(s, p + 1, e - 1, InBracket)
  }

  /** The match of `pat` that a JavaScript regex engine finds when it starts at p is s[p..e]. */
  ghost predicate Matches(pat: Pattern, s: string, p: nat, e: nat)
  {
    p < e <= |s| &&
    match pat
    case Url => UrlMatch(s, p, e)
    case WrappedUrl => WrappedUrlMatch(s, p, e)
    case List => ListMatch(s, p, e, false)
    case LooseList => ListMatch(s, p, e, true)
    case Label => LabelMatch(s, p, e)
    case Bracket => BracketMatch(s, p, e)
    case Slash => s[p] == '/' && e == p + 1
  }

  /* ---------------------------------------------------------------------------------- */
  /* Scanners                                                                            */

  function UrlAt(s: string, p: nat): (r: Option<nat>)
    ensures r.Some? ==> p < r.value <= |s|
  {
    var n := if StartsWithAt(s, p, "https://") then 8 else if StartsWithAt(s, p, "http://") then 7 else 0;
    if n == 0 then None
    else
      var e := RunEnd(s, p + n, IsUrlChar);
      if e == p + n then None else Some(e)
  }

  function WrappedUrlAt(s: string, p: nat): (r: Option<nat>)
    ensures r.Some? ==> p < r.value <= |s|
  {
    if p < |s| && s[p] == '(' && UrlAt(s, p + 1).Some? then Some(AfterCloseParen(s, UrlAt(s, p + 1).value))
    else if UrlAt(s, p).Some? then Some(AfterCloseParen(s, UrlAt(s, p).value))
    else None
  }

  function ListAt(s: string, p: nat, loose: bool): (r: Option<nat>)
    ensures r.Some? ==> p < r.value <= |s|
  {
    if p < |s| && s[p] == '(' then
      var q := RunEnd(s, p + 1, c => InList(c, loose));
      if q < |s| && s[q] == ')' && IsListBody(s[p + 1..q], loose) then Some(q + 1) else None
    else None
  }

  /** The longest accepted label end in (p + 1, e], trying e first and then shorter ends. */
  function LastAccepted(s: string, p: nat, e: nat): (r: Option<nat>)
    requires e <= |s|
    ensures r.Some? ==> p + 2 <= r.value <= e && LabelAccepts(s, r.value)
    ensures r.Some? ==> forall e' :: r.value < e' <= e ==> !LabelAccepts(s, e')
    ensures r.None? ==> forall e' :: p + 2 <= e' <= e ==> !LabelAccepts(s, e')
    decreases e
  {
    if e < p + 2 then None
    else if LabelAccepts(s, e) then Some(e)
    else LastAccepted(s, p, e - 1)
  }

  function LabelAt(s: string, p: nat): (r: Option<nat>)
    ensures r.Some? ==> p < r.value <= |s|
  {
    if p < |s| && s[p] == '@' && !IsBoundary(s, p) then LastAccepted(s, p, RunEnd(s, p + 1, IsLabelChar))
    else None
  }

  function BracketAt(s: string, p: nat): (r: Option<nat>)
    ensures r.Some? ==> p < r.value <= |s|
  {
    if p < |s| && IsOpener(s[p]) then
      var q := RunEnd(s, p + 1, InBracket);
      if q < |s| && IsCloser(s[q]) then Some(q + 1) else None
    else None
  }

  /** The end of the match of `pat` starting at p, if the engine finds one there. */
  function MatchAt(pat: Pattern, s: string, p: nat): (r: Option<nat>)
    ensures r.Some? ==> p < r.value <= |s|
  {
    match pat
    case Url => UrlAt(s, p)
    case WrappedUrl => WrappedUrlAt(s, p)
    case List => ListAt(s, p, false)
    case LooseList => ListAt(s, p, true)
    case Label => LabelAt(s, p)
    case Bracket => BracketAt(s, p)
    case Slash => if p < |s| && s[p] == '/' then Some(p + 1) else None
  }

  /* ---------------------------------------------------------------------------------- */
  /* The scanners find exactly the described matches                                    */

  /** A maximal run is the one RunEnd finds. */
  lemma RunEndUnique(s: string, a: nat, e: nat, inClass: char -> bool)
    requires a <= e <= |s| && AllIn(s, a, e, inClass) && (e == |s| || !inClass(s[e]))
    ensures RunEnd(s, a, inClass) == e
  {
    var r := RunEnd(s, a, inClass);
  }

  lemma UrlAtCorrect(s: string, p: nat, e: nat)
    ensures UrlAt(s, p) == Some(e) <==> UrlMatch(s, p, e)
  {
    if StartsWithAt(s, p, "https://") {
      assert s[p + 4] == "https://"[4];
      assert !StartsWithAt(s, p, "http://") by { assert s[p + 4] != "http://"[4]; }
      if MaximalUrlRun(s, p + 8, e) {
        RunEndUnique(s, p + 8, e, IsUrlChar);
      }
    } else if StartsWithAt(s, p, "http://") {
      if MaximalUrlRun(s, p + 7, e) {
        RunEndUnique(s, p + 7, e, IsUrlChar);
      }
    }
  }

  lemma WrappedUrlAtCorrect(s: string, p: nat, e: nat)
    ensures WrappedUrlAt(s, p) == Some(e) <==> WrappedUrlMatch(s, p, e)
  {
    if WrappedUrlAt(s, p) == Some(e) {
      var m := if p < |s| && s[p] == '(' && UrlAt(s, p + 1).Some? then UrlAt(s, p + 1).value else UrlAt(s, p).value;
      if p < |s| && s[p] == '(' && UrlAt(s, p + 1).Some? {
        UrlAtCorrect(s, p + 1, m);
      } else {
        UrlAtCorrect(s, p, m);
      }
      assert e == AfterCloseParen(s, m);
    }
    if WrappedUrlMatch(s, p, e) {
      var m: nat :| (UrlMatch(s, p, m) || (p < |s| && s[p] == '(' && UrlMatch(s, p + 1, m))) &&
                    e == AfterCloseParen(s, m);
      if p < |s| && s[p] == '(' {
        // a URL cannot start with "(", so the parenthesis belongs to the match
        HeadMismatch(s, p, "http://");
        HeadMismatch(s, p, "https://");
        UrlAtCorrect(s, p + 1, m);
      } else {
        UrlAtCorrect(s, p, m);
      }
    }
  }

  lemma ListAtCorrect(s: string, p: nat, e: nat, loose: bool)
    ensures ListAt(s, p, loose) == Some(e) <==> (p < e <= |s| && ListMatch(s, p, e, loose))
  {
    if p < e <= |s| && ListMatch(s, p, e, loose) {
      // the closing parenthesis is the first character after "(" outside the list class
      var t := s[p + 1..e - 1];
      assert AllIn(s, p + 1, e - 1, c => InList(c, loose)) by {
        forall k | p + 1 <= k < e - 1 ensures InList(s[k], loose) {
          assert s[k] == t[k - p - 1];
        }
      }
      RunEndUnique(s, p + 1, e - 1, c => InList(c, loose));
    }
  }

  lemma LabelAtCorrect(s: string, p: nat, e: nat)
    ensures LabelAt(s, p) == Some(e) <==> LabelMatch(s, p, e)
  {
    if p < |s| && s[p] == '@' && !IsBoundary(s, p) {
      var q := RunEnd(s, p + 1, IsLabelChar);
      if LabelAt(s, p) == Some(e) {
        forall e' | e < e' <= |s| && AllIn(s, p + 1, e', IsLabelChar) ensures !LabelAccepts(s, e') {
        }
      }
      if LabelMatch(s, p, e) {
        var r := LastAccepted(s, p, q);
      }
    }
  }

  lemma BracketAtCorrect(s: string, p: nat, e: nat)
    ensures BracketAt(s, p) == Some(e) <==> BracketMatch(s, p, e)
  {
    if BracketMatch(s, p, e) {
      RunEndUnique(s, p + 1, e - 1, InBracket);
    }
  }

  /** The computed matcher and the described match agree, so the match at a position, when
      there is one, is unique. */
  lemma MatchAtCorrect(pat: Pattern, s: string, p: nat, e: nat)
    ensures MatchAt(pat, s, p) == Some(e) <==> Matches(pat, s, p, e)
  {
    match pat
    case Url => UrlAtCorrect(s, p, e);
    case WrappedUrl => WrappedUrlAtCorrect(s, p, e);
    case List => ListAtCorrect(s, p, e, false);
    case LooseList => ListAtCorrect(s, p, e, true);
    case Label => LabelAtCorrect(s, p, e);
    case Bracket => BracketAtCorrect(s, p, e);
    case Slash =>
  }

  /* ---------------------------------------------------------------------------------- */
  /* Leftmost match and global scan                                                      */

  ghost predicate NoMatchAt(pat: Pattern, s: string, q: nat)
  {
    forall e :: !Matches(pat, s, q, e)
  }

  /** No match starts anywhere in s[from..]. */
  ghost predicate NoMatchFrom(pat: Pattern, s: string, from: nat)
  {
    forall q :: from <= q < |s| ==> NoMatchAt(pat, s, q)
  }

  /** sp is the match a search starting at `from` finds: a match, and none starts earlier. */
  ghost predicate Leftmost(pat: Pattern, s: string, from: nat, sp: Span)
  {
    from <= sp.start && Matches(pat, s, sp.start, sp.end) &&
    forall q :: from <= q < sp.start ==> NoMatchAt(pat, s, q)
  }

  /** The search a regex engine performs: try each start position from left to right. */
  function FirstMatch(pat: Pattern, s: string, from: nat): (r: Option<Span>)
    requires from <= |s|
    ensures r.Some? ==> from <= r.value.start < r.value.end <= |s|
    decreases |s| - from
  {
    if from == |s| then None
    else
      match MatchAt(pat, s, from)
      case Some(e) => Some(Span(from, e))
      case None => FirstMatch(pat, s, from + 1)
  }

  lemma {:induction false} FirstMatchLeftmost(pat: Pattern, s: string, from: nat)
    requires from <= |s|
    ensures FirstMatch(pat, s, from).Some? ==> Leftmost(pat, s, from, FirstMatch(pat, s, from).value)
    ensures FirstMatch(pat, s, from).None? ==> NoMatchFrom(pat, s, from)
    decreases |s| - from
  {
    if from < |s| {
      match MatchAt(pat, s, from)
      case Some(e) =>
        MatchAtCorrect(pat, s, from, e);
      case None =>
        forall e ensures !Matches(pat, s, from, e) {
          MatchAtCorrect(pat, s, from, e);
        }
        FirstMatchLeftmost(pat, s, from + 1);
    }
  }

  /** A leftmost match inside the string means the search does find something. */
  lemma LeftmostFound(pat: Pattern, s: string, from: nat, sp: Span)
    requires Leftmost(pat, s, from, sp) && sp.start < |s|
    ensures !NoMatchFrom(pat, s, from)
  {
    assert !NoMatchAt(pat, s, sp.start);
  }

  /** Spans that start at or after `from`, each after the previous one's end, within n. */
  ghost predicate Chain(sps: seq<Span>, from: nat, n: nat)
    decreases |sps|
  {
    sps == [] ||
    (from <= sps[0].start < sps[0].end <= n && Chain(sps[1..], sps[0].end, n))
  }

  /** Where the search for the k-th match of a global scan begins. */
  function ResumeAt(sps: seq<Span>, from: nat, k: nat): nat
    requires k <= |sps|
  {
    if k == 0 then from else sps[k - 1].end
  }

  /** The matches a global regex reports, in order: each search resumes where the previous
      match ended. */
  function Scan(pat: Pattern, s: string, from: nat): (r: seq<Span>)
    requires from <= |s|
    ensures Chain(r, from, |s|)
    decreases |s| - from
  {
    match FirstMatch(pat, s, from)
    case None => []
    case Some(sp) => [sp] + Scan(pat, s, sp.end)
  }

  /** The spans are what a global regex reports: each is the leftmost match after the
      previous one's end, and after the last one there is no match at all. */
  ghost predicate GlobalMatches(pat: Pattern, s: string, from: nat, sps: seq<Span>)
  {
    (forall k :: 0 <= k < |sps| ==> Leftmost(pat, s, ResumeAt(sps, from, k), sps[k])) &&
    NoMatchFrom(pat, s, ResumeAt(sps, from, |sps|))
  }

  lemma {:induction false} ScanLeftmost(pat: Pattern, s: string, from: nat)
    requires from <= |s|
    ensures GlobalMatches(pat, s, from, Scan(pat, s, from))
    decreases |s| - from
  {
    FirstMatchLeftmost(pat, s, from);
    match FirstMatch(pat, s, from)
    case None =>
    case Some(sp) =>
      var rest := Scan(pat, s, sp.end);
      var sc := [sp] + rest;
      assert sc == Scan(pat, s, from);
      ScanLeftmost(pat, s, sp.end);
      GlobalMatchesCons(pat, s, from, sp, rest);
  }

  lemma GlobalMatchesCons(pat: Pattern, s: string, from: nat, sp: Span, rest: seq<Span>)
    requires Leftmost(pat, s, from, sp) && GlobalMatches(pat, s, sp.end, rest)
    ensures GlobalMatches(pat, s, from, [sp] + rest)
  {
    var sc := [sp] + rest;
    forall k | 0 <= k < |sc| ensures Leftmost(pat, s, ResumeAt(sc, from, k), sc[k]) {
      if k > 0 {
        LeftmostShift(pat, s, sc, rest, from, sp.end, k);
      }
    }
    assert ResumeAt(sc, from, |sc|) == ResumeAt(rest, sp.end, |rest|);
  }

  lemma LeftmostShift(pat: Pattern, s: string, sc: seq<Span>, rest: seq<Span>, from: nat, resume: nat, k: nat)
    requires 0 < k <= |rest| && |sc| == |rest| + 1 && sc[1..] == rest && sc[0].end == resume
    requires Leftmost(pat, s, ResumeAt(rest, resume, k - 1), rest[k - 1])
    ensures Leftmost(pat, s, ResumeAt(sc, from, k), sc[k])
  {
    assert sc[k] == rest[k - 1];
    assert ResumeAt(sc, from, k) == ResumeAt(rest, resume, k - 1);
  }

  /** s[from..] with the spans cut out. */
  function Splice(s: string, sps: seq<Span>, from: nat): (r: string)
    requires from <= |s| && Chain(sps, from, |s|)
    decreases |sps|
  {
    if sps == [] then s[from..]
    else s[from..sps[0].start] + Splice(s, sps[1..], sps[0].end)
  }

  /** `replace` with a global pattern and the empty replacement, as the engine runs it: at a
      position where the pattern matches, drop the match and go on after it; elsewhere keep
      the character and go on with the next. */
  function ReplaceAll(pat: Pattern, s: string, from: nat): (r: string)
    requires from <= |s|
    ensures |r| <= |s| - from
    decreases |s| - from
  {
    if from == |s| then []
    else
      match MatchAt(pat, s, from)
      case Some(e) => ReplaceAll(pat, s, e)
      case None => [s[from]] + ReplaceAll(pat, s, from + 1)
  }

  lemma SpliceStep(s: string, sps: seq<Span>, from: nat)
    requires from < |s| && Chain(sps, from + 1, |s|)
    ensures Chain(sps, from, |s|)
    ensures Splice(s, sps, from) == [s[from]] + Splice(s, sps, from + 1)
  {
    if sps != [] {
      assert s[from..sps[0].start] == [s[from]] + s[from + 1..sps[0].start];
    } else {
      assert s[from..] == [s[from]] + s[from + 1..];
    }
  }

  /** A global replace deletes exactly the spans the global scan reports, keeping the text
      between them. */
  lemma {:induction false} ReplaceAllDeletesScan(pat: Pattern, s: string, from: nat)
    requires from <= |s|
    ensures ReplaceAll(pat, s, from) == Splice(s, Scan(pat, s, from), from)
    decreases |s| - from
  {
    if from < |s| {
      match MatchAt(pat, s, from)
      case Some(e) =>
        ReplaceAllDeletesScan(pat, s, e);
        assert Scan(pat, s, from) == [Span(from, e)] + Scan(pat, s, e);
      case None =>
        ReplaceAllDeletesScan(pat, s, from + 1);
        assert FirstMatch(pat, s, from) == FirstMatch(pat, s, from + 1);
        assert Scan(pat, s, from) == Scan(pat, s, from + 1);
        SpliceStep(s, Scan(pat, s, from + 1), from);
    }
  }
}
