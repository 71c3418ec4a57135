/** The per-task part of the handler in src/commands/todoist.ts:45-74: the title goes through
    URL, ingredient-list and label extraction and the cleanup steps, and the HTML document is
    built from the hashtag header, the optional link, the notes and the page shell, with every
    line feed turned into a <br/> tag at the end. */
module Document {
  import opened Wrappers
  import opened Text
  import opened Extract
  import opened Assembler

  /* ---------------------------------------------------------------------------------- */
  /* Title                                                                               */

  /** What the three extraction stages take out of a raw title, and what they leave. */
  datatype TitleParts = TitleParts(url: Option<string>, ingredients: Option<string>, tags: seq<string>, rest: string)

  /** URL capture on the raw title, then URL removal; ingredient-list capture on what is left,
      then list removal; label capture on what is left, then label removal. */
  function SplitTitle(raw: string): (r: TitleParts)
    ensures |r.rest| <= |raw|
  {
    var url := GetURL(raw);
    var t1 := RemoveURLs(raw);
    var ingredients := GetIngredientList(t1);
    var t2 := RemoveIngredientList(t1);
    var tags := GetLabels(t2);
    TitleParts(url, ingredients, tags, RemoveLabels(t2))
  }

  /* ---------------------------------------------------------------------------------- */
  /* Text pieces of the document                                                         */

  /** Array.prototype.join. */
  function Join(words: seq<string>, sep: string): (r: string)
    ensures words == [] ==> r == []
  {
    if words == [] then []
    else if |words| == 1 then words[0]
    else words[0] + sep + Join(words[1..], sep)
  }

  lemma {:induction false} JoinAppend(a: seq<string>, b: seq<string>, sep: string)
    requires a != [] && b != []
    ensures Join(a + b, sep) == Join(a, sep) + sep + Join(b, sep)
    decreases |a|
  {
    if |a| == 1 {
      assert (a + b)[1..] == b;
    } else {
      assert (a + b)[1..] == a[1..] + b;
      JoinAppend(a[1..], b, sep);
    }
  }

  /** Each label with "#" in front. */
  function Tagged(labels: seq<string>): (r: seq<string>)
    ensures |r| == |labels|
    ensures forall k :: 0 <= k < |r| ==> r[k] == "#" + labels[k]
  {
    if labels == [] then [] else ["#" + labels[0]] + Tagged(labels[1..])
  }

  /** The header: the labels as hashtags separated by single spaces. */
  function Hashtags(labels: seq<string>): string
  {
    Join(Tagged(labels), " ")
  }

  /** The header lists the extra labels first and the extracted ones after them, with one
      space between the two groups. */
  lemma HashtagsExtraFirst(extra: seq<string>, tags: seq<string>)
    requires extra != [] && tags != []
    ensures Hashtags(extra + tags) == Hashtags(extra) + " " + Hashtags(tags)
  {
    assert Tagged(extra + tags) == Tagged(extra) + Tagged(tags);
    JoinAppend(Tagged(extra), Tagged(tags), " ");
  }

  /** An extra label "meal" and extracted labels "quick" and "dinner" give the header
      "#meal #quick #dinner". */
  lemma HashtagsExample()
    ensures Hashtags(["meal"] + ["quick", "dinner"]) == "#meal #quick #dinner"
  {
    var tags := ["#meal", "#quick", "#dinner"];
    assert ["meal"] + ["quick", "dinner"] == ["meal", "quick", "dinner"];
    assert "#" + "meal" == "#meal" && "#" + "quick" == "#quick" && "#" + "dinner" == "#dinner";
    assert Tagged(["meal", "quick", "dinner"]) == tags;
    assert tags[1..][1..] == ["#dinner"];
    assert Join(tags[1..], " ") == "#quick" + " " + "#dinner";
    assert Join(tags, " ") == "#meal" + " " + ("#quick" + " " + "#dinner");
  }

  /** The fixed pieces of markup. */
  const HtmlOpen: string := "<html lang=\"en\"><head><title>"
  const TitleClose: string := "</title></head><body><h2>"
  const HeadingClose: string := "</h2>"
  const BodyClose: string := "</body>"
  const AnchorOpen: string := "<a href=\""
  const AnchorMid: string := "\">"
  const AnchorClose: string := "</a>"
  /** The note's date is preceded by a closing bold tag where an opening one was meant; the
      output keeps it. */
  const BoldClose: string := "</b>"
  const DateClose: string := "</b>:"
  const LineBreak: string := "<br/>"

  /** The link line, present only when a URL was captured (a captured URL is never empty, so
      the source's truthiness test is the same as presence). */
  function Anchor(url: Option<string>): (r: string)
    ensures url.None? <==> r == []
  {
    match url
    case None => ""
    case Some(u) => AnchorOpen + u + AnchorMid + u + AnchorClose + "\n\n"
  }

  /** One note as the reduce step renders it. */
  function NoteBlock(n: Note): string
  {
    "\n" + BoldClose + Show(n.date) + DateClose + "\n\n" + Show(n.content) + "\n"
  }

  /** The reduce over the notes: the accumulator grows by one block per note, left to right. */
  function FoldNotes(acc: string, notes: seq<Note>): string
    decreases |notes|
  {
    if notes == [] then acc else FoldNotes(acc + NoteBlock(notes[0]), notes[1..])
  }

  /** The notes' blocks one after the other, in note order. */
  function NoteBlocks(notes: seq<Note>): string
  {
    if notes == [] then "" else NoteBlock(notes[0]) + NoteBlocks(notes[1..])
  }

  /** The reduce appends the blocks in note order after what was there. */
  lemma {:induction false} FoldNotesAppendsBlocks(acc: string, notes: seq<Note>)
    ensures FoldNotes(acc, notes) == acc + NoteBlocks(notes)
    decreases |notes|
  {
    if notes != [] {
      FoldNotesAppendsBlocks(acc + NoteBlock(notes[0]), notes[1..]);
    }
  }

  /** The page shell around the body. */
  function Shell(title: string, ingredients: Option<string>, body: string): string
  {
    HtmlOpen + title + TitleClose + Show(ingredients) + HeadingClose + body + BodyClose
  }

  /** The global replace of "\n" by "<br/>". */
  function BreakLines(s: string): string
  {
    if s == [] then []
    else (if s[0] == '\n' then LineBreak else [s[0]]) + BreakLines(s[1..])
  }

  /** After the replacement no line feed is left, and nothing was lost: the result is at
      least as long as the input. */
  lemma {:induction false} BreakLinesNoLineFeed(s: string)
    ensures '\n' !in BreakLines(s)
    ensures |BreakLines(s)| >= |s|
  {
    if s != [] {
      BreakLinesNoLineFeed(s[1..]);
      assert '\n' !in LineBreak;
    }
  }

  lemma {:induction false} BreakLinesAppend(a: string, b: string)
    ensures BreakLines(a + b) == BreakLines(a) + BreakLines(b)
    decreases |a|
  {
    if a == [] {
      assert a + b == b;
    } else {
      var head := if a[0] == '\n' then LineBreak else [a[0]];
      assert (a + b)[0] == a[0];
      assert (a + b)[1..] == a[1..] + b;
      assert BreakLines(a + b) == head + BreakLines(a[1..] + b);
      assert BreakLines(a) == head + BreakLines(a[1..]);
      BreakLinesAppend(a[1..], b);
    }
  }

  /** Text without a line feed goes through unchanged. */
  lemma {:induction false} BreakLinesKeeps(s: string)
    requires '\n' !in s
    ensures BreakLines(s) == s
  {
    if s != [] {
      assert '\n' !in s[1..] by { assert forall c :: c in s[1..] ==> c in s; }
      BreakLinesKeeps(s[1..]);
    }
  }

  lemma BreakLinesNewlines()
    ensures BreakLines("\n") == LineBreak
    ensures BreakLines("\n\n") == LineBreak + LineBreak
  {
    assert "\n\n"[1..] == "\n";
  }

  lemma BreakLines3(a: string, b: string, c: string)
    ensures BreakLines(a + b + c) == BreakLines(a) + BreakLines(b) + BreakLines(c)
  {
    BreakLinesAppend(a + b, c);
    BreakLinesAppend(a, b);
  }

  lemma BreakLines5(a: string, b: string, c: string, d: string, e: string)
    ensures BreakLines(a + b + c + d + e) ==
            BreakLines(a) + BreakLines(b) + BreakLines(c) + BreakLines(d) + BreakLines(e)
  {
    BreakLines3(a + b + c, d, e);
    BreakLines3(a, b, c);
  }

  lemma BreakLines7(a: string, b: string, c: string, d: string, e: string, f: string, g: string)
    ensures BreakLines(a + b + c + d + e + f + g) ==
            BreakLines(a) + BreakLines(b) + BreakLines(c) + BreakLines(d) + BreakLines(e) +
            BreakLines(f) + BreakLines(g)
  {
    BreakLines3(a + b + c + d + e, f, g);
    BreakLines5(a, b, c, d, e);
  }

  lemma BreakLines6(a: string, b: string, c: string, d: string, e: string, f: string)
    ensures BreakLines(a + b + c + d + e + f) ==
            BreakLines(a) + BreakLines(b) + BreakLines(c) + BreakLines(d) + BreakLines(e) + BreakLines(f)
  {
    BreakLines3(a + b + c + d, e, f);
    BreakLines3(a + b, c, d);
    BreakLinesAppend(a, b);
  }

  /** The fixed markup holds no line feed. */
  lemma HtmlOpenKept()
    ensures BreakLines(HtmlOpen) == HtmlOpen
  {
    assert '\n' !in HtmlOpen;
    BreakLinesKeeps(HtmlOpen);
  }

  lemma TitleCloseKept()
    ensures BreakLines(TitleClose) == TitleClose
  {
    assert '\n' !in TitleClose;
    BreakLinesKeeps(TitleClose);
  }

  lemma HeadingCloseKept()
    ensures BreakLines(HeadingClose) == HeadingClose
  {
    assert '\n' !in HeadingClose;
    BreakLinesKeeps(HeadingClose);
  }

  lemma BodyCloseKept()
    ensures BreakLines(BodyClose) == BodyClose
  {
    assert '\n' !in BodyClose;
    BreakLinesKeeps(BodyClose);
  }

  lemma AnchorOpenKept()
    ensures BreakLines(AnchorOpen) == AnchorOpen
  {
    assert '\n' !in AnchorOpen;
    BreakLinesKeeps(AnchorOpen);
  }

  lemma AnchorMidKept()
    ensures BreakLines(AnchorMid) == AnchorMid
  {
    assert '\n' !in AnchorMid;
    BreakLinesKeeps(AnchorMid);
  }

  lemma AnchorCloseKept()
    ensures BreakLines(AnchorClose) == AnchorClose
  {
    assert '\n' !in AnchorClose;
    BreakLinesKeeps(AnchorClose);
  }

  lemma BoldCloseKept()
    ensures BreakLines(BoldClose) == BoldClose
  {
    assert '\n' !in BoldClose;
    BreakLinesKeeps(BoldClose);
  }

  lemma DateCloseKept()
    ensures BreakLines(DateClose) == DateClose
  {
    assert '\n' !in DateClose;
    BreakLinesKeeps(DateClose);
  }

  /* ---------------------------------------------------------------------------------- */
  /* The whole page                                                                      */

  /** The file base name (before collisions) and the document of one task. */
  datatype Page = Page(title: string, html: string)

  /** `undefined.match(...)` throws: a task without a CONTENT cell cannot be converted. */
  datatype TransformError = UndefinedTitle

  function Transform(task: Task, labels: seq<string>): Result<Page, TransformError>
  {
    match task.title
    case None => Err(UndefinedTitle)
    case Some(raw) =>
      var parts := SplitTitle(raw);
      var title := FinishTitle(parts.rest);
      Ok(Page(title, PageHtml(title, parts, labels, task.notes)))
  }

  /** The page text: the shell around the hashtags, the link and the notes, with every line
      feed replaced by a line break. */
  function PageHtml(title: string, parts: TitleParts, labels: seq<string>, notes: seq<Note>): string
  {
    var header := "\n" + Hashtags(labels + parts.tags) + "\n\n" + Anchor(parts.url);
    BreakLines(Shell(title, parts.ingredients, FoldNotes(header, notes)))
  }

  /** A task converts exactly when it has a title cell; its file base name is then never
      empty and is "FIX_ME" or has no surrounding whitespace. */
  lemma TransformTitle(task: Task, labels: seq<string>)
    ensures Transform(task, labels).Ok? <==> task.title.Some?
    ensures Transform(task, labels).Ok? ==>
      var t := Transform(task, labels).value.title;
      t != [] && (t == "FIX_ME" || (!IsSpace(t[0]) && !IsSpace(t[|t| - 1])))
  {
    if task.title.Some? {
      FinishTitleNonEmpty(SplitTitle(task.title.value).rest);
    }
  }

  /** The notes as they appear in the finished page. */
  function NotesHtml(notes: seq<Note>): string
  {
    if notes == [] then ""
    else LineBreak + BoldClose + BreakLines(Show(notes[0].date)) + DateClose + (LineBreak + LineBreak) +
         BreakLines(Show(notes[0].content)) + LineBreak + NotesHtml(notes[1..])
  }

  lemma {:induction false} NoteBlocksBreak(notes: seq<Note>)
    ensures BreakLines(NoteBlocks(notes)) == NotesHtml(notes)
    decreases |notes|
  {
    if notes != [] {
      var n := notes[0];
      NoteBlocksBreak(notes[1..]);
      BreakLinesAppend(NoteBlock(n), NoteBlocks(notes[1..]));
      BreakLinesNewlines();
      BoldCloseKept();
      DateCloseKept();
      BreakLines7("\n", BoldClose, Show(n.date), DateClose, "\n\n", Show(n.content), "\n");
    }
  }

  /** The link as it appears in the page. */
  function AnchorHtml(url: Option<string>): string
  {
    match url
    case None => ""
    case Some(u) => AnchorOpen + u + AnchorMid + u + AnchorClose + (LineBreak + LineBreak)
  }

  /** A link whose URL holds no line feed is kept verbatim. */
  lemma AnchorBreak(url: Option<string>)
    requires url.Some? ==> '\n' !in url.value
    ensures BreakLines(Anchor(url)) == AnchorHtml(url)
  {
    if url.Some? {
      var u := url.value;
      BreakLinesNewlines();
      AnchorOpenKept();
      AnchorMidKept();
      AnchorCloseKept();
      BreakLinesKeeps(u);
      BreakLines6(AnchorOpen, u, AnchorMid, u, AnchorClose, "\n\n");
    }
  }

  /** The page built from its parts, piece by piece after the line-feed replacement. */
  lemma RenderLayout(title: string, ingredients: Option<string>, tags: string, url: Option<string>, notes: seq<Note>)
    requires url.Some? ==> '\n' !in url.value
    ensures BreakLines(Shell(title, ingredients, FoldNotes("\n" + tags + "\n\n" + Anchor(url), notes))) ==
      HtmlOpen + BreakLines(title) + TitleClose + BreakLines(Show(ingredients)) + HeadingClose +
      (LineBreak + BreakLines(tags) + (LineBreak + LineBreak) + AnchorHtml(url) + NotesHtml(notes)) + BodyClose
  {
    var body := FoldNotes("\n" + tags + "\n\n" + Anchor(url), notes);
    BodyBreak(tags, url, notes);
    HtmlOpenKept();
    TitleCloseKept();
    HeadingCloseKept();
    BodyCloseKept();
    BreakLines7(HtmlOpen, title, TitleClose, Show(ingredients), HeadingClose, body, BodyClose);
  }

  /** The page body after the line-feed replacement: a line break, the hashtags, two line
      breaks, the link and the notes. */
  lemma BodyBreak(tags: string, url: Option<string>, notes: seq<Note>)
    requires url.Some? ==> '\n' !in url.value
    ensures BreakLines(FoldNotes("\n" + tags + "\n\n" + Anchor(url), notes)) ==
      LineBreak + BreakLines(tags) + (LineBreak + LineBreak) + AnchorHtml(url) + NotesHtml(notes)
  {
    var header := "\n" + tags + "\n\n" + Anchor(url);
    FoldNotesAppendsBlocks(header, notes);
    BreakLines5("\n", tags, "\n\n", Anchor(url), NoteBlocks(notes));
    BreakLinesNewlines();
    NoteBlocksBreak(notes);
    AnchorBreak(url);
  }

  /** The finished page, piece by piece: the shell with the title and the ingredient list
      (the text "undefined" when none was found), a line break, the hashtags of the extra
      labels and then of the extracted ones, two line breaks, the link exactly when a URL was
      captured, the notes in task order, and the closing tag; and no line feed anywhere. */
  lemma PageLayout(task: Task, labels: seq<string>)
    requires task.title.Some?
    ensures var parts := SplitTitle(task.title.value);
      var page := Transform(task, labels).value;
      page.title == FinishTitle(parts.rest) &&
      page.html ==
        HtmlOpen + BreakLines(page.title) + TitleClose + BreakLines(Show(parts.ingredients)) + HeadingClose +
        (LineBreak + BreakLines(Hashtags(labels + parts.tags)) + (LineBreak + LineBreak) +
         AnchorHtml(parts.url) + NotesHtml(task.notes)) + BodyClose &&
      '\n' !in page.html
  {
    var parts := SplitTitle(task.title.value);
    assert parts.url.Some? ==> '\n' !in parts.url.value by {
      if parts.url.Some? {
        assert forall c :: c in parts.url.value ==> Patterns.IsUrlChar(c);
      }
    }
    var title := FinishTitle(parts.rest);
    var header := "\n" + Hashtags(labels + parts.tags) + "\n\n" + Anchor(parts.url);
    BreakLinesNoLineFeed(Shell(title, parts.ingredients, FoldNotes(header, task.notes)));
    RenderLayout(title, parts.ingredients, Hashtags(labels + parts.tags), parts.url, task.notes);
  }
}
