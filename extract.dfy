/** The extraction helpers of src/commands/todoist.ts and the title cleanup in its handler:
    capture and removal of URLs, ingredient lists and @labels, the first-bracket unwrap, the
    first-slash removal, trimming and the FIX_ME fallback. */
module Extract {
  import opened Wrappers
  import opened Text
  import opened Patterns

  /* ---------------------------------------------------------------------------------- */
  /* URLs                                                                                */

  /** getURLFromString: the first URL, if any. */
  function GetURL(s: string): (r: Option<string>)
    ensures r.Some? ==> |r.value| > 7 && (r.value[..7] == "http://" || r.value[..8] == "https://")
    ensures r.Some? ==> forall c :: c in r.value ==> IsUrlChar(c)
  {
    match FirstMatch(Url, s, 0)
    case None => None
    case Some(sp) =>
      FirstMatchLeftmost(Url, s, 0);
      UrlMatchChars(s, sp.start, sp.end);
      Some(s[sp.start..sp.end])
  }

  /** A URL is made of URL characters only, its scheme included. */
  lemma UrlMatchChars(s: string, p: nat, e: nat)
    requires UrlMatch(s, p, e)
    ensures forall c :: c in s[p..e] ==> IsUrlChar(c)
  {
    var n := if StartsWithAt(s, p, "http://") && MaximalUrlRun(s, p + 7, e) then 7 else 8;
    var scheme := if n == 7 then "http://" else "https://";
    assert s[p..p + n] == scheme;
    forall k | p <= k < e ensures IsUrlChar(s[k]) {
      if k < p + n {
        assert s[k] == scheme[k - p];
      }
    }
    forall c | c in s[p..e] ensures IsUrlChar(c) {
      var k :| 0 <= k < e - p && s[p..e][k] == c;
      assert c == s[p + k];
    }
  }

  /** The captured URL is the leftmost text that starts with "http://" or "https://" and goes on
      with a maximal non-empty run of characters that are neither whitespace nor ")"; there is
      none exactly when no such text occurs. */
  lemma GetURLIsLeftmost(s: string)
    ensures GetURL(s).None? <==> NoMatchFrom(Url, s, 0)
    ensures GetURL(s).Some? ==>
      exists sp :: Leftmost(Url, s, 0, sp) && GetURL(s).value == s[sp.start..sp.end]
  {
    FirstMatchLeftmost(Url, s, 0);
    if FirstMatch(Url, s, 0).Some? {
      var sp := FirstMatch(Url, s, 0).value;
      assert !NoMatchFrom(Url, s, 0) by { assert !NoMatchAt(Url, s, sp.start); }
    }
  }

  /** removeURLs: every URL, with an optional "(" before it and ")" after it, deleted. */
  function RemoveURLs(s: string): (r: string)
    ensures |r| <= |s|
  {
    ReplaceAll(WrappedUrl, s, 0)
  }

  /** The removal deletes exactly the successive leftmost wrapped-URL matches of a global
      scan and keeps everything between them. */
  lemma RemoveURLsDeletesEveryMatch(s: string)
    ensures GlobalMatches(WrappedUrl, s, 0, Scan(WrappedUrl, s, 0))
    ensures RemoveURLs(s) == Splice(s, Scan(WrappedUrl, s, 0), 0)
  {
    ScanLeftmost(WrappedUrl, s, 0);
    ReplaceAllDeletesScan(WrappedUrl, s, 0);
  }

  /* ---------------------------------------------------------------------------------- */
  /* Ingredient lists                                                                    */

  /** getIngredientListFromString: the inside of the first parenthesised ingredient list. */
  function GetIngredientList(s: string): (r: Option<string>)
    ensures r.Some? ==> IsListBody(r.value, false)
  {
    match FirstMatch(List, s, 0)
    case None => None
    case Some(sp) =>
      FirstMatchLeftmost(List, s, 0);
      Some(s[sp.start + 1..sp.end - 1])
  }

  /** The capture is the inside of the leftmost ingredient list: the match is non-global, so
      a later list is never the one captured. */
  lemma IngredientListIsLeftmost(s: string)
    ensures GetIngredientList(s).Some? ==>
      exists sp :: Leftmost(List, s, 0, sp) && GetIngredientList(s).value == s[sp.start + 1..sp.end - 1]
  {
    FirstMatchLeftmost(List, s, 0);
    if FirstMatch(List, s, 0).Some? {
      var sp := FirstMatch(List, s, 0).value;
      assert Leftmost(List, s, 0, sp);
    }
  }

  /** The capture is absent exactly when no ingredient list occurs in the input. */
  lemma IngredientListAbsent(s: string)
    ensures GetIngredientList(s).None? <==> NoMatchFrom(List, s, 0)
  {
    FirstMatchLeftmost(List, s, 0);
    if FirstMatch(List, s, 0).Some? {
      var sp := FirstMatch(List, s, 0).value;
      assert !NoMatchAt(List, s, sp.start);
    }
  }

  /** A captured list t appears in the input as "(" + t + ")", contains a comma, has
      whitespace after every comma, and neither starts nor ends with a comma. */
  lemma IngredientListShape(s: string)
    requires GetIngredientList(s).Some?
    ensures exists i :: StartsWithAt(s, i, "(" + GetIngredientList(s).value + ")")
    ensures var t := GetIngredientList(s).value;
      (exists k :: 0 <= k < |t| && t[k] == ',') &&
      (forall k :: 0 <= k < |t| && t[k] == ',' ==> k + 1 < |t| && IsSpace(t[k + 1])) &&
      t[0] != ',' && t[|t| - 1] != ','
  {
    FirstMatchLeftmost(List, s, 0);
    var sp := FirstMatch(List, s, 0).value;
    var t := s[sp.start + 1..sp.end - 1];
    assert s[sp.start..sp.start + |t| + 2] == "(" + t + ")";
    assert StartsWithAt(s, sp.start, "(" + t + ")");
  }

  /** removeIngredientList: every ingredient list deleted, parentheses included; the item
      class here also admits an ASCII apostrophe. */
  function RemoveIngredientList(s: string): (r: string)
    ensures |r| <= |s|
  {
    ReplaceAll(LooseList, s, 0)
  }

  /** Removal is global: it deletes every list of the scan, not only the first. */
  lemma RemoveIngredientListDeletesEveryMatch(s: string)
    ensures GlobalMatches(LooseList, s, 0, Scan(LooseList, s, 0))
    ensures RemoveIngredientList(s) == Splice(s, Scan(LooseList, s, 0), 0)
  {
    ScanLeftmost(LooseList, s, 0);
    ReplaceAllDeletesScan(LooseList, s, 0);
  }

  /** Any list the capture accepts at a position is a list the removal accepts there too. */
  lemma CapturedListIsRemovable(s: string, p: nat, e: nat)
    requires Matches(List, s, p, e)
    ensures Matches(LooseList, s, p, e)
  {
  }

  /* ---------------------------------------------------------------------------------- */
  /* Labels                                                                              */

  /** The matched tokens with their leading "@" dropped. */
  function LabelTexts(s: string, sps: seq<Span>, from: nat): (r: seq<string>)
    requires from <= |s| && Chain(sps, from, |s|)
    ensures |r| == |sps|
    decreases |sps|
  {
    if sps == [] then []
    else [s[sps[0].start + 1..sps[0].end]] + LabelTexts(s, sps[1..], sps[0].end)
  }

  /** getLabelsFromString: every label token of a global scan, in order, without its "@". */
  function GetLabels(s: string): (r: seq<string>)
  {
    LabelTexts(s, Scan(Label, s, 0), 0)
  }

  /** removeLabels: every label token deleted. */
  function RemoveLabels(s: string): (r: string)
    ensures |r| <= |s|
  {
    ReplaceAll(Label, s, 0)
  }

  lemma {:induction false} LabelTextsAt(s: string, sps: seq<Span>, from: nat, k: nat)
    requires from <= |s| && Chain(sps, from, |s|) && k < |sps|
    ensures sps[k].start < sps[k].end <= |s|
    ensures LabelTexts(s, sps, from)[k] == s[sps[k].start + 1..sps[k].end]
    decreases k
  {
    if k > 0 {
      LabelTextsAt(s, sps[1..], sps[0].end, k - 1);
    }
  }

  /** Labels and removal agree: the k-th extracted label is the k-th token of the global scan
      without its "@", each token is "@" followed by a non-empty run of label characters that is
      not followed by ";", and the removal deletes exactly those tokens. */
  lemma LabelsAreRemovedTokens(s: string)
    ensures GlobalMatches(Label, s, 0, Scan(Label, s, 0))
    ensures |GetLabels(s)| == |Scan(Label, s, 0)|
    ensures forall k :: 0 <= k < |Scan(Label, s, 0)| ==> LabelToken(s, Scan(Label, s, 0)[k], GetLabels(s)[k])
    ensures RemoveLabels(s) == Splice(s, Scan(Label, s, 0), 0)
  {
    ScanLeftmost(Label, s, 0);
    ReplaceAllDeletesScan(Label, s, 0);
    LabelTokens(s);
  }

  /** Every token of the label scan, and the label taken from it. */
  lemma LabelTokens(s: string)
    ensures forall k :: 0 <= k < |Scan(Label, s, 0)| ==> LabelToken(s, Scan(Label, s, 0)[k], GetLabels(s)[k])
  {
    forall k | 0 <= k < |Scan(Label, s, 0)|
      ensures LabelToken(s, Scan(Label, s, 0)[k], GetLabels(s)[k])
    {
      LabelTokenAt(s, k);
    }
  }

  /** A label token in s: "@" followed by the text, which is not empty, and not followed
      by ";". */
  predicate LabelToken(s: string, sp: Span, text: string)
  {
    sp.start + 2 <= sp.end <= |s| && s[sp.start] == '@' &&
    text == s[sp.start + 1..sp.end] &&
    (sp.end == |s| || s[sp.end] != ';')
  }

  /** The k-th token of the label scan and the k-th label. */
  lemma LabelTokenAt(s: string, k: nat)
    requires k < |Scan(Label, s, 0)|
    ensures LabelToken(s, Scan(Label, s, 0)[k], GetLabels(s)[k])
    ensures var sp := Scan(Label, s, 0)[k]; forall j :: sp.start < j < sp.end <= |s| ==> IsLabelChar(s[j])
  {
    var sc := Scan(Label, s, 0);
    ScanLeftmost(Label, s, 0);
    assert Leftmost(Label, s, ResumeAt(sc, 0, k), sc[k]);
    LabelTextsAt(s, sc, 0, k);
  }

  /** Every extracted label is non-empty and made of ASCII letters, "-" and "_". */
  lemma LabelsAreWords(s: string)
    ensures forall k :: 0 <= k < |GetLabels(s)| ==>
      |GetLabels(s)[k]| > 0 && forall j :: 0 <= j < |GetLabels(s)[k]| ==> IsLabelChar(GetLabels(s)[k][j])
  {
    forall k | 0 <= k < |GetLabels(s)|
      ensures |GetLabels(s)[k]| > 0 && forall j :: 0 <= j < |GetLabels(s)[k]| ==> IsLabelChar(GetLabels(s)[k][j])
    {
      LabelIsWord(s, k);
    }
  }

  lemma LabelIsWord(s: string, k: nat)
    requires k < |GetLabels(s)|
    ensures |GetLabels(s)[k]| > 0 && forall j :: 0 <= j < |GetLabels(s)[k]| ==> IsLabelChar(GetLabels(s)[k][j])
  {
    LabelTokenAt(s, k);
    var sp := Scan(Label, s, 0)[k];
    var l := GetLabels(s)[k];
    forall j | 0 <= j < |l| ensures IsLabelChar(l[j]) {
      assert l[j] == s[sp.start + 1 + j];
    }
  }

  /* ---------------------------------------------------------------------------------- */
  /* Title cleanup                                                                       */

  /** The bracket-unwrap replace: the first "[" or "(" and the first "]" or ")" after it on
      the same line are deleted, and the text between them kept. */
  function UnwrapFirstBracket(s: string): (r: string)
  {
    match FirstMatch(Bracket, s, 0)
    case None => s
    case Some(sp) =>
      FirstMatchLeftmost(Bracket, s, 0);
      DropDelimiters(s, sp)
  }

  /** The text with the first and the last character of the span deleted. */
  function DropDelimiters(s: string, sp: Span): (r: string)
    requires sp.start + 2 <= sp.end <= |s|
    ensures |r| + 2 == |s|
  {
    s[..sp.start] + s[sp.start + 1..sp.end - 1] + s[sp.end..]
  }

  /** Only the leftmost bracketed segment is unwrapped; its two delimiters are the only
      characters that go. */
  lemma UnwrapOnlyFirst(s: string)
    ensures NoMatchFrom(Bracket, s, 0) ==> UnwrapFirstBracket(s) == s
    ensures !NoMatchFrom(Bracket, s, 0) ==>
      exists sp :: Leftmost(Bracket, s, 0, sp) &&
                   UnwrapFirstBracket(s) == s[..sp.start] + s[sp.start + 1..sp.end - 1] + s[sp.end..]
  {
    FirstMatchLeftmost(Bracket, s, 0);
    var m := FirstMatch(Bracket, s, 0);
    if m.Some? {
      var sp := m.value;
      LeftmostFound(Bracket, s, 0, sp);
      assert UnwrapFirstBracket(s) == DropDelimiters(s, sp);
    }
  }

  /** The string replace with "/" as pattern: only the first slash goes. */
  function RemoveFirstSlash(s: string): (r: string)
  {
    match FirstMatch(Slash, s, 0)
    case None => s
    case Some(sp) => s[..sp.start] + s[sp.end..]
  }

  lemma RemoveFirstSlashSpec(s: string)
    ensures '/' !in s ==> RemoveFirstSlash(s) == s
    ensures '/' in s ==>
      exists i :: 0 <= i < |s| && s[i] == '/' && '/' !in s[..i] &&
                  RemoveFirstSlash(s) == s[..i] + s[i + 1..]
  {
    FirstMatchLeftmost(Slash, s, 0);
    match FirstMatch(Slash, s, 0)
    case None =>
      forall i | 0 <= i < |s| ensures s[i] != '/' {
        assert NoMatchAt(Slash, s, i);
        assert !Matches(Slash, s, i, i + 1);
      }
    case Some(sp) =>
      var i := sp.start;
      forall q | 0 <= q < i ensures s[..i][q] != '/' {
        assert NoMatchAt(Slash, s, q);
        assert !Matches(Slash, s, q, q + 1);
      }
  }

  /** The title steps after label removal: unwrap and trim, drop the first slash and trim,
      and fall back to "FIX_ME" when nothing is left. */
  function FinishTitle(t: string): (r: string)
  {
    var u := Trim(UnwrapFirstBracket(t));
    var v := Trim(RemoveFirstSlash(u));
    if |v| == 0 then "FIX_ME" else v
  }

  /** The finished title is never empty; it is "FIX_ME" exactly when the cleanup left only
      whitespace, and otherwise it has no leading or trailing whitespace. */
  lemma FinishTitleNonEmpty(t: string)
    ensures FinishTitle(t) != []
    ensures var v := Trim(RemoveFirstSlash(Trim(UnwrapFirstBracket(t))));
      (FinishTitle(t) == "FIX_ME" <==> (v == [] || v == "FIX_ME")) &&
      (v != [] ==> FinishTitle(t) == v && !IsSpace(v[0]) && !IsSpace(v[|v| - 1]))
  {
  }

  /** Backtracking at a ";": the run gives back its last character when that leaves a word
      boundary not followed by ";", and yields nothing when no such point exists. */
  lemma LabelBacktracking()
    ensures GetLabels("@a-b;") == ["a-"]
    ensures GetLabels("@foo;") == []
  {
    var s := "@a-b;";
    assert RunEnd(s, 1, IsLabelChar) == 4 by {
      assert IsLabelChar(s[1]) && IsLabelChar(s[2]) && IsLabelChar(s[3]) && !IsLabelChar(s[4]);
    }
    assert !LabelAccepts(s, 4) && LabelAccepts(s, 3);
    assert LabelAt(s, 0) == Some(3);
    assert FirstMatch(Label, s, 0) == Some(Span(0, 3));
    assert MatchAt(Label, s, 3) == None && MatchAt(Label, s, 4) == None;
    assert FirstMatch(Label, s, 3) == None;
    assert s[1..3] == "a-";

    var t := "@foo;";
    assert RunEnd(t, 1, IsLabelChar) == 4 by {
      assert IsLabelChar(t[1]) && IsLabelChar(t[2]) && IsLabelChar(t[3]) && !IsLabelChar(t[4]);
    }
    assert !LabelAccepts(t, 4) && !LabelAccepts(t, 3) && !LabelAccepts(t, 2);
    assert LabelAt(t, 0) == None;
    assert MatchAt(Label, t, 1) == None && MatchAt(Label, t, 2) == None;
    assert MatchAt(Label, t, 3) == None && MatchAt(Label, t, 4) == None;
    assert FirstMatch(Label, t, 0) == None;
  }
}
