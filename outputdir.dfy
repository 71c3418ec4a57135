/** The folder name derived from the CSV path (src/commands/todoist.ts:42): a single replace
    with the pattern `.*\/(.*?)\.csv`, no flags, and the capture as replacement. The match is
    the leftmost one; from its start, `.*` runs as far as it can within the line and gives back
    characters until a "/" is followed, on the same line, by ".csv", so the last such "/" wins;
    the lazy group then stops at the first ".csv" after that "/". The whole match is replaced by
    the text between the "/" and the ".csv"; whatever follows the ".csv" is kept. */
module OutputDir {
  import opened Wrappers
  import opened Text

  predicate NotLineTerminator(c: char)
  {
    !IsLineTerminator(c)
  }

  /** How far `.` can reach from p: the next line terminator, or the end. */
  function LineEnd(s: string, p: nat): (e: nat)
    requires p <= |s|
    ensures p <= e <= |s|
  {
    RunEnd(s, p, NotLineTerminator)
  }

  /** ".csv" starts at c and ends by `limit`. */
  predicate CsvAt(s: string, c: nat, limit: nat)
  {
    c + 4 <= limit && StartsWithAt(s, c, ".csv")
  }

  predicate SlashAt(s: string, a: nat)
  {
    a < |s| && s[a] == '/'
  }

  /** The last ".csv" that starts in [lo, hi) and ends by `limit`. */
  function LastCsv(s: string, lo: nat, hi: nat, limit: nat): (r: Option<nat>)
    ensures r.Some? ==> lo <= r.value < hi && CsvAt(s, r.value, limit)
    ensures r.Some? ==> forall c :: r.value < c < hi ==> !CsvAt(s, c, limit)
    ensures r.None? ==> forall c :: lo <= c < hi ==> !CsvAt(s, c, limit)
    decreases hi
  {
    if hi <= lo then None
    else if CsvAt(s, hi - 1, limit) then Some(hi - 1)
    else LastCsv(s, lo, hi - 1, limit)
  }

  /** The first ".csv" that starts in [lo, hi) and ends by `limit`. */
  function FirstCsv(s: string, lo: nat, hi: nat, limit: nat): (r: Option<nat>)
    ensures r.Some? ==> lo <= r.value < hi && CsvAt(s, r.value, limit)
    ensures r.Some? ==> forall c :: lo <= c < r.value ==> !CsvAt(s, c, limit)
    ensures r.None? ==> forall c :: lo <= c < hi ==> !CsvAt(s, c, limit)
    decreases hi - lo
  {
    if hi <= lo then None
    else if CsvAt(s, lo, limit) then Some(lo)
    else FirstCsv(s, lo + 1, hi, limit)
  }

  /** The last "/" in [lo, hi). */
  function LastSlash(s: string, lo: nat, hi: nat): (r: Option<nat>)
    ensures r.Some? ==> lo <= r.value < hi && SlashAt(s, r.value)
    ensures r.Some? ==> forall a :: r.value < a < hi ==> !SlashAt(s, a)
    ensures r.None? ==> forall a :: lo <= a < hi ==> !SlashAt(s, a)
    decreases hi
  {
    if hi <= lo then None
    else if SlashAt(s, hi - 1) then Some(hi - 1)
    else LastSlash(s, lo, hi - 1)
  }

  /** From p, a "/" at a and a ".csv" at c after it, with no line terminator from p to the end
      of the ".csv": a way for the pattern to match at p. */
  predicate DirPair(s: string, p: nat, a: nat, c: nat)
    requires p <= |s|
  {
    p <= a < c && SlashAt(s, a) && CsvAt(s, c, LineEnd(s, p))
  }

  /** The match the regular expression engine picks at p: among the ways to match, the last
      "/" (greedy `.*`), then for it the first ".csv" (lazy group). */
  ghost predicate DirMatch(s: string, p: nat, a: nat, c: nat)
    requires p <= |s|
  {
    DirPair(s, p, a, c) &&
    (forall a': nat, c': nat :: DirPair(s, p, a', c') ==> a' <= a) &&
    (forall c': nat :: DirPair(s, p, a, c') ==> c <= c')
  }

  /** The match at p as the engine finds it: the last ".csv" on the line, the last "/" before
      it, and then the first ".csv" after that "/". */
  function DirMatchAt(s: string, p: nat): (r: Option<(nat, nat)>)
    requires p <= |s|
  {
    var limit := LineEnd(s, p);
    match LastCsv(s, p, limit, limit)
    case None => None
    case Some(last) =>
      match LastSlash(s, p, last)
      case None => None
      case Some(a) =>
        match FirstCsv(s, a + 1, limit, limit)
        case None => None
        case Some(c) => Some((a, c))
  }

  /** The computed match is the engine's, and there is none exactly when no way to match
      exists. */
  lemma DirMatchAtCorrect(s: string, p: nat)
    requires p <= |s|
    ensures DirMatchAt(s, p).None? <==> forall a: nat, c: nat :: !DirPair(s, p, a, c)
    ensures DirMatchAt(s, p).Some? ==> DirMatch(s, p, DirMatchAt(s, p).value.0, DirMatchAt(s, p).value.1)
  {
    var limit := LineEnd(s, p);
    var lastCsv := LastCsv(s, p, limit, limit);
    if lastCsv.Some? {
      var last := lastCsv.value;
      var slash := LastSlash(s, p, last);
      if slash.Some? {
        var a := slash.value;
        var first := FirstCsv(s, a + 1, limit, limit);
        assert first.Some?;
        forall a': nat, c': nat | DirPair(s, p, a', c') ensures a' <= a {
          assert c' <= last;
        }
        forall c': nat | DirPair(s, p, a, c') ensures first.value <= c' {
          assert CsvAt(s, c', limit);
        }
        assert DirPair(s, p, a, first.value);
        assert DirMatchAt(s, p) == Some((a, first.value));
      }
    }
  }

  /** No way to match starts anywhere in [from, to). */
  ghost predicate NoDirMatchIn(s: string, from: nat, to: nat)
    requires to <= |s|
  {
    forall p: nat, a: nat, c: nat :: from <= p < to ==> !DirPair(s, p, a, c)
  }

  /** The leftmost start at or after `from` with a match, and the match there. */
  function FirstDirMatch(s: string, from: nat): (r: Option<(nat, nat, nat)>)
    requires from <= |s|
    ensures r.None? ==> NoDirMatchIn(s, from, |s|)
    ensures r.Some? ==> from <= r.value.0 <= |s| && NoDirMatchIn(s, from, r.value.0) &&
                        DirMatch(s, r.value.0, r.value.1, r.value.2)
    decreases |s| - from
  {
    DirMatchAtCorrect(s, from);
    match DirMatchAt(s, from)
    case Some((a, c)) => Some((from, a, c))
    case None =>
      if from == |s| then None
      else FirstDirMatch(s, from + 1)
  }

  /** `file.replace(/.*\/(.*?)\.csv/, "$1")`. */
  function OutputDirName(file: string): (r: string)
  {
    match FirstDirMatch(file, 0)
    case None => file
    case Some((p, a, c)) =>
      assert DirPair(file, p, a, c);
      file[..p] + file[a + 1..c] + file[c + 4..]
  }

  /** Without a "/" followed by ".csv" on the same line, the path is used as it is. */
  lemma OutputDirUnmatched(file: string)
    requires NoDirMatchIn(file, 0, |file|)
    ensures OutputDirName(file) == file
  {
  }

  /** An export path: a folder part, a "/", then a file name without "/" ending in ".csv" and
      holding no earlier ".csv", all on one line, gives the file name without its extension. */
  lemma OutputDirOfPath(folder: string, name: string)
    requires forall k :: 0 <= k < |folder| ==> !IsLineTerminator(folder[k])
    requires forall k :: 0 <= k < |name| ==> !IsLineTerminator(name[k]) && name[k] != '/'
    requires forall k :: 0 <= k < |name| ==> !StartsWithAt(name + ".csv", k, ".csv")
    ensures OutputDirName(folder + "/" + name + ".csv") == name
  {
    var file := folder + "/" + name + ".csv";
    var a, c := |folder|, |folder| + 1 + |name|;
    PathMatch(folder, name);
    var m := FirstDirMatch(file, 0).value;
    assert m.0 == 0 by {
      assert DirPair(file, 0, a, c);
    }
    DirMatchUnique(file, 0, a, c, m.1, m.2);
    assert file[a + 1..c] == name;
    assert file[..0] + file[a + 1..c] + file[c + 4..] == name;
  }

  /** In such a path the match at the start runs from the last "/" to the final ".csv". */
  lemma PathMatch(folder: string, name: string)
    requires forall k :: 0 <= k < |folder| ==> !IsLineTerminator(folder[k])
    requires forall k :: 0 <= k < |name| ==> !IsLineTerminator(name[k]) && name[k] != '/'
    requires forall k :: 0 <= k < |name| ==> !StartsWithAt(name + ".csv", k, ".csv")
    ensures DirMatch(folder + "/" + name + ".csv", 0, |folder|, |folder| + 1 + |name|)
  {
    var file := folder + "/" + name + ".csv";
    var a, c := |folder|, |folder| + 1 + |name|;
    assert file[c..] == ".csv";
    LineEndOfLine(file);
    assert DirPair(file, 0, a, c);
    assert file[a + 1..] == name + ".csv";
    forall a': nat, c': nat | DirPair(file, 0, a', c') ensures a' <= a {
    }
    forall c': nat | DirPair(file, 0, a, c') ensures c <= c' {
      if c' < c {
        assert StartsWithAt(name + ".csv", c' - a - 1, ".csv");
      }
    }
  }

  /** The engine's choice at a position is unique. */
  lemma DirMatchUnique(s: string, p: nat, a: nat, c: nat, a2: nat, c2: nat)
    requires p <= |s| && DirMatch(s, p, a, c) && DirMatch(s, p, a2, c2)
    ensures a == a2 && c == c2
  {
  }

  /** A string without line terminators is one line. */
  lemma LineEndOfLine(s: string)
    requires forall k :: 0 <= k < |s| ==> !IsLineTerminator(s[k])
    ensures LineEnd(s, 0) == |s|
  {
  }
}
