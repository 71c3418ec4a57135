/** The handler's loop in src/commands/todoist.ts:45-81: every assembled task is turned into a
    page and written to the output folder under its title, with "E" appended as often as
    needed so that no existing file is overwritten. The folder is a map from path to file
    contents; reading the CSV file and creating the directories are not part of this model. */
module Export {
  import opened Wrappers
  import opened Assembler
  import opened Document
  import opened OutputDir

  /** k letters "E". */
  function Es(k: nat): (r: string)
    ensures |r| == k
    ensures forall c :: c in r ==> c == 'E'
  {
    if k == 0 then "" else Es(k - 1) + "E"
  }

  /** Where a page of the given base name goes. */
  function PagePath(dir: string, name: string): (r: string)
    ensures |r| == 15 + |dir| + |name|
  {
    "./output/" + dir + "/" + name + ".html"
  }

  /** Within one folder, distinct base names go to distinct paths. */
  lemma PagePathInjective(dir: string, a: string, b: string)
    requires PagePath(dir, a) == PagePath(dir, b)
    ensures a == b
  {
    var n := 10 + |dir|;
    assert a == PagePath(dir, a)[n..n + |a|];
    assert b == PagePath(dir, b)[n..n + |b|];
  }

  /** `labels || []`: the extra labels from the command line, none when the option is absent. */
  function ExtraLabels(labels: Option<seq<string>>): seq<string>
  {
    if labels.Some? then labels.value else []
  }

  /** The page is in the folder under the given name, the title with k "E"s appended, and each
      name with fewer "E"s is taken. */
  ghost predicate Placed(dir: string, files: map<string, string>, page: Page, name: string, k: nat)
  {
    name == page.title + Es(k) &&
    PagePath(dir, name) in files && files[PagePath(dir, name)] == page.html &&
    forall j :: 0 <= j < k ==> PagePath(dir, page.title + Es(j)) in files
  }

  /** Adding files elsewhere leaves a placed page placed. */
  lemma PlacedKept(dir: string, before: map<string, string>, after: map<string, string>, page: Page, name: string, k: nat)
    requires Placed(dir, before, page, name, k)
    requires before.Keys <= after.Keys && after[PagePath(dir, name)] == before[PagePath(dir, name)]
    ensures Placed(dir, after, page, name, k)
  {
  }

  /** Every page in the list is placed under its name. */
  ghost predicate AllPlaced(dir: string, files: map<string, string>, pages: seq<Page>, names: seq<string>, es: seq<nat>)
  {
    |pages| == |names| == |es| &&
    forall m :: 0 <= m < |names| ==> Placed(dir, files, pages[m], names[m], es[m])
  }

  /** The folder holds what it held before plus one new file per name, none of them at a path
      that existed before, and no two of them at the same path. */
  ghost predicate AddedOnce(dir: string, before: map<string, string>, files: map<string, string>, names: seq<string>)
  {
    (forall m :: 0 <= m < |names| ==> PagePath(dir, names[m]) !in before) &&
    (forall m, j :: 0 <= m < j < |names| ==> names[m] != names[j]) &&
    files.Keys == before.Keys + Paths(dir, names) &&
    (forall p :: p in before ==> files[p] == before[p])
  }

  /** The set of paths of the given names. */
  ghost function Paths(dir: string, names: seq<string>): set<string>
  {
    set m | 0 <= m < |names| :: PagePath(dir, names[m])
  }

  lemma PathsAppend(dir: string, names: seq<string>, name: string)
    ensures Paths(dir, names + [name]) == Paths(dir, names) + {PagePath(dir, name)}
  {
    var names' := names + [name];
    forall p | p in Paths(dir, names) ensures p in Paths(dir, names') {
      var m :| 0 <= m < |names| && p == PagePath(dir, names[m]);
      assert names'[m] == names[m];
    }
    assert names'[|names|] == name;
  }

  /** Writing one more page at a free path keeps the earlier pages placed and places it. */
  lemma PlacedStep(dir: string, files: map<string, string>, pages: seq<Page>, names: seq<string>, es: seq<nat>,
                   page: Page, name: string, k: nat)
    requires AllPlaced(dir, files, pages, names, es)
    requires PagePath(dir, name) !in files && name == page.title + Es(k)
    requires forall j :: 0 <= j < k ==> PagePath(dir, page.title + Es(j)) in files
    ensures AllPlaced(dir, files[PagePath(dir, name) := page.html], pages + [page], names + [name], es + [k])
  {
    var after := files[PagePath(dir, name) := page.html];
    forall m | 0 <= m < |names| ensures Placed(dir, after, pages[m], names[m], es[m]) {
      PlacedKept(dir, files, after, pages[m], names[m], es[m]);
    }
  }

  /** Writing at a path that is free keeps every new file written once. */
  lemma AddedStep(dir: string, start: map<string, string>, files: map<string, string>, names: seq<string>,
                  name: string, html: string)
    requires AddedOnce(dir, start, files, names)
    requires PagePath(dir, name) !in files
    ensures AddedOnce(dir, start, files[PagePath(dir, name) := html], names + [name])
  {
    PathsAppend(dir, names, name);
    forall m | 0 <= m < |names| ensures names[m] != name {
      assert PagePath(dir, names[m]) in files;
    }
  }

  /** When the i-th page of the loop was written, the path of `name` was already taken: it
      existed before the loop, or one of the first i pages went there. */
  ghost predicate TakenBefore(dir: string, start: map<string, string>, names: seq<string>, i: nat, name: string)
  {
    PagePath(dir, name) in start || exists m :: 0 <= m < i && m < |names| && names[m] == name
  }

  /** Every page went to the first free name at the time it was written: each name with fewer
      "E"s was taken then. */
  ghost predicate FirstFreeEach(dir: string, start: map<string, string>, pages: seq<Page>, names: seq<string>, es: seq<nat>)
  {
    |pages| == |names| == |es| &&
    forall m, j :: 0 <= m < |names| && 0 <= j < es[m] ==> TakenBefore(dir, start, names, m, pages[m].title + Es(j))
  }

  /** A page placed at the first name free in the folder as the loop left it keeps every page
      placed at the first name free at its own time. */
  lemma FirstFreeStep(dir: string, start: map<string, string>, files: map<string, string>, pages: seq<Page>,
                      names: seq<string>, es: seq<nat>, page: Page, name: string, k: nat)
    requires FirstFreeEach(dir, start, pages, names, es) && AddedOnce(dir, start, files, names)
    requires forall j :: 0 <= j < k ==> PagePath(dir, page.title + Es(j)) in files
    ensures FirstFreeEach(dir, start, pages + [page], names + [name], es + [k])
  {
    var names' := names + [name];
    forall m, j | 0 <= m < |names| && 0 <= j < es[m]
      ensures TakenBefore(dir, start, names', m, pages[m].title + Es(j))
    {
      var x := pages[m].title + Es(j);
      if PagePath(dir, x) !in start {
        var w :| 0 <= w < m && w < |names| && names[w] == x;
        assert names'[w] == x;
      }
    }
    forall j | 0 <= j < k ensures TakenBefore(dir, start, names', |names|, page.title + Es(j)) {
      var x := page.title + Es(j);
      if PagePath(dir, x) !in start {
        assert PagePath(dir, x) in Paths(dir, names);
        var w :| 0 <= w < |names| && PagePath(dir, x) == PagePath(dir, names[w]);
        PagePathInjective(dir, x, names[w]);
        assert names'[w] == x;
      }
    }
    assert (pages + [page])[|names|] == page;
    assert forall m :: 0 <= m < |names| ==> (pages + [page])[m] == pages[m] && (es + [k])[m] == es[m];
  }

  /** Two pages with the same title written into an empty folder: the first goes under the
      title itself and the second under the title with one "E". */
  lemma SameTitleTwice(dir: string, title: string, written: seq<string>, es: seq<nat>)
    requires |written| == |es| == 2 && written[0] != written[1]
    requires forall i :: 0 <= i < 2 ==> written[i] == title + Es(es[i])
    requires forall i, j :: 0 <= i < 2 && 0 <= j < es[i] ==> TakenBefore(dir, map[], written, i, title + Es(j))
    ensures es == [0, 1] && written == [title, title + "E"]
  {
    assert !TakenBefore(dir, map[], written, 0, title + Es(0));
    assert written[0] == title;
    assert |title + Es(1)| != |written[0]|;
    assert !TakenBefore(dir, map[], written, 1, title + Es(1));
    assert Es(1) == "E";
  }

  datatype ExportError = AssemblyFailed(AssemblyError) | TransformFailed(TransformError)

  /** The output folder ./output/<dir>/ and what the files under it hold. */
  class OutputFolder {
    const dir: string
    var files: map<string, string>

    /** The folder for the given CSV path, named as the path's file name without ".csv",
        holding what is already on disk. */
    constructor (file: string, existing: map<string, string>)
      ensures dir == OutputDirName(file) && files == existing
    {
      dir := OutputDirName(file);
      files := existing;
    }

    /** `fs.existsSync` on the page path of a base name. */
    predicate Exists(name: string)
      reads this
    {
      PagePath(dir, name) in files
    }

    /** The collision loop: the title with the fewest "E"s appended whose page does not exist
        yet. */
    method FreeName(title: string) returns (name: string, ghost k: nat)
      ensures name == title + Es(k)
      ensures !Exists(name)
      ensures forall j :: 0 <= j < k ==> Exists(title + Es(j))
    {
      name := title;
      k := 0;
      while Exists(name)
        invariant name == title + Es(k)
        invariant forall j :: 0 <= j < k ==> Exists(title + Es(j))
        decreases set p | p in files && |p| >= |PagePath(dir, name)|
      {
        ghost var longer := set p | p in files && |p| >= |PagePath(dir, name)|;
        assert PagePath(dir, name) in longer;
        assert title + Es(k + 1) == name + "E";
        name := name + "E";
        k := k + 1;
        assert (set p | p in files && |p| >= |PagePath(dir, name)|) < longer;
      }
    }

    /** `writeFile`: the page path now holds the content; nothing else changes. */
    method Write(name: string, content: string)
      modifies this
      ensures files == old(files)[PagePath(dir, name) := content]
    {
      files := files[PagePath(dir, name) := content];
    }

    /** One iteration's write: the page goes to the first free name. */
    method Place(page: Page) returns (name: string, ghost k: nat)
      modifies this
      ensures name == page.title + Es(k)
      ensures PagePath(dir, name) !in old(files)
      ensures forall j :: 0 <= j < k ==> PagePath(dir, page.title + Es(j)) in old(files)
      ensures files == old(files)[PagePath(dir, name) := page.html]
    {
      name, k := FreeName(page.title);
      Write(name, page.html);
    }

    /** The handler's loop over the tasks, for a given per-task conversion: each page is written
        under the first free name in turn; a conversion that fails stops the loop with the
        earlier pages written. No path is written twice and no existing file changes. */
    method WriteAll(tasks: seq<Task>, convert: Task -> Result<Page, TransformError>)
      returns (written: seq<string>, failure: Option<TransformError>, ghost es: seq<nat>)
      modifies this
      ensures |written| == |es| <= |tasks|
      ensures failure.None? <==> |written| == |tasks|
      ensures failure.Some? ==> convert(tasks[|written|]) == Err(failure.value)
      ensures forall i :: 0 <= i < |written| ==>
        convert(tasks[i]).Ok? && Placed(dir, files, convert(tasks[i]).value, written[i], es[i])
      ensures forall i, j :: 0 <= i < |written| && 0 <= j < es[i] ==>
        TakenBefore(dir, old(files), written, i, convert(tasks[i]).value.title + Es(j))
      ensures forall i :: 0 <= i < |written| ==> PagePath(dir, written[i]) !in old(files)
      ensures forall i, j :: 0 <= i < j < |written| ==> written[i] != written[j]
      ensures files.Keys == old(files).Keys + set i | 0 <= i < |written| :: PagePath(dir, written[i])
      ensures forall p :: p in old(files) ==> files[p] == old(files)[p]
    {
      written, failure, es := [], None, [];
      var i := 0;
      ghost var pages: seq<Page> := [];
      while i < |tasks|
        invariant i <= |tasks| && |pages| == i
        invariant forall m :: 0 <= m < i ==> convert(tasks[m]) == Ok(pages[m])
        invariant AllPlaced(dir, files, pages, written, es)
        invariant AddedOnce(dir, old(files), files, written)
        invariant FirstFreeEach(dir, old(files), pages, written, es)
      {
        var page := convert(tasks[i]);
        if page.Err? {
          failure := Some(page.error);
          return;
        }
        ghost var before := files;
        var name, k := Place(page.value);
        PlacedStep(dir, before, pages, written, es, page.value, name, k);
        FirstFreeStep(dir, old(files), before, pages, written, es, page.value, name, k);
        AddedStep(dir, old(files), before, written, name, page.value.html);
        pages := pages + [page.value];
        written, es := written + [name], es + [k];
        i := i + 1;
      }
    }

    /** The handler after the CSV is read: assemble the rows, then convert and write every task
        in order. A note before the first task stops everything before any file is written; a
        task without a title stops the loop with the pages of the earlier tasks written. Every
        page goes to a path that existed neither before nor for an earlier task, under the
        task's title with the fewest "E"s appended that was free, and no existing file changes. */
    method Export(rows: seq<Row>, labels: Option<seq<string>>) returns (written: seq<string>, err: Option<ExportError>, ghost es: seq<nat>)
      modifies this
      ensures Group(rows).Err? ==> err == Some(AssemblyFailed(Group(rows).error)) && written == [] && files == old(files)
      ensures Group(rows).Ok? ==>
        var tasks := Group(rows).value;
        |written| == |es| <= |tasks| &&
        (err.None? <==> |written| == |tasks|) &&
        (err.Some? ==> err == Some(TransformFailed(UndefinedTitle)) && tasks[|written|].title.None?) &&
        forall i :: 0 <= i < |written| ==>
          tasks[i].title.Some? &&
          written[i] == Transform(tasks[i], ExtraLabels(labels)).value.title + Es(es[i]) &&
          PagePath(dir, written[i]) in files &&
          files[PagePath(dir, written[i])] == Transform(tasks[i], ExtraLabels(labels)).value.html &&
          forall j :: 0 <= j < es[i] ==>
            PagePath(dir, Transform(tasks[i], ExtraLabels(labels)).value.title + Es(j)) in files
      ensures Group(rows).Ok? ==>
        var tasks := Group(rows).value;
        forall i, j :: 0 <= i < |written| && 0 <= j < es[i] ==>
          TakenBefore(dir, old(files), written, i, Transform(tasks[i], ExtraLabels(labels)).value.title + Es(j))
      ensures forall i :: 0 <= i < |written| ==> PagePath(dir, written[i]) !in old(files)
      ensures forall i, j :: 0 <= i < j < |written| ==> written[i] != written[j]
      ensures files.Keys == old(files).Keys + set i | 0 <= i < |written| :: PagePath(dir, written[i])
      ensures forall p :: p in old(files) ==> files[p] == old(files)[p]
    {
      written, err, es := [], None, [];
      var grouped := Assemble(rows);
      if grouped.Err? {
        err := Some(AssemblyFailed(grouped.error));
        return;
      }
      var extra := ExtraLabels(labels);
      var failure;
      written, failure, es := WriteAll(grouped.value, task => Transform(task, extra));
      if failure.Some? {
        err := Some(TransformFailed(failure.value));
      }
    }
  }
}
