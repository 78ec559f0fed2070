/**
 * The `git` module of src/lib.rs: the file-status classifier, the status labels,
 * and `FileData`, the per-file snapshot holding a file status and a map from
 * working-tree line numbers to line statuses.
 *
 * The git2 library is not part of this model. Its answers are inputs: the
 * repository's working directory, the status flags it reports per relative path,
 * and the diff it produces per pathspec (the lines handed to the line callback and
 * whether `Diff::foreach` returned `Ok`).
 */
module Git {
  import opened Wrappers

  // ---------------------------------------------------------------------------
  // Status flags and the classifier (src/lib.rs:108-135)
  // ---------------------------------------------------------------------------

  /** One bit of git2's `Status` bit set. */
  datatype StatusFlag =
    | IndexNew | IndexModified | IndexDeleted | IndexRenamed | IndexTypechange
    | WtNew | WtModified | WtDeleted | WtTypechange | WtRenamed | WtUnreadable
    | Ignored | Conflicted

  /** A `Status` value: the set of bits it contains; `contains(f)` is membership. */
  type Status = set<StatusFlag>

  datatype FileStatus = Ok | Modified | Staged | Partial | Untracked
  {
    /** The label shown in the status line (`impl ToString for FileStatus`). */
    function ToString(): (r: string)
      ensures |r| > 0
    {
      match this
      case Ok => "ok"
      case Modified => "modified"
      case Staged => "staged"
      case Partial => "partially staged"
      case Untracked => "untracked"
    }
  }

  datatype LineStatus = Added | Modified

  /** The four bits the classifier looks at. */
  const Inspected: set<StatusFlag> := {WtNew, IndexNew, WtModified, IndexModified}

  /** Classifies git's status bits for one file; the "new" bits take precedence. */
  function MapStatus(s: Status): (r: FileStatus)
    ensures WtNew in s && IndexNew in s ==> r == Partial
    ensures WtNew in s && IndexNew !in s ==> r == Untracked
    ensures WtNew !in s && IndexNew in s ==> r == Staged
    ensures WtNew !in s && IndexNew !in s && WtModified in s && IndexModified in s ==> r == Partial
    ensures WtNew !in s && IndexNew !in s && WtModified in s && IndexModified !in s ==> r == FileStatus.Modified
    ensures WtNew !in s && IndexNew !in s && WtModified !in s && IndexModified in s ==> r == Staged
    ensures s !! Inspected ==> r == Ok
  {
    if WtNew in s then
      if IndexNew in s then Partial else Untracked
    else if IndexNew in s then
      Staged
    else if WtModified in s then
      if IndexModified in s then Partial else FileStatus.Modified
    else if IndexModified in s then
      Staged
    else
      Ok
  }

  /** Each status is reached by exactly the flag combinations listed for it. */
  lemma MapStatusPartition(s: Status)
    ensures MapStatus(s) == Ok <==> s !! Inspected
    ensures MapStatus(s) == Untracked <==> WtNew in s && IndexNew !in s
    ensures MapStatus(s) == Partial <==>
      (WtNew in s && IndexNew in s) ||
      (WtNew !in s && IndexNew !in s && WtModified in s && IndexModified in s)
    ensures MapStatus(s) == Staged <==>
      WtNew !in s && (IndexNew in s || (WtModified !in s && IndexModified in s))
    ensures MapStatus(s) == FileStatus.Modified <==>
      WtNew !in s && IndexNew !in s && WtModified in s && IndexModified !in s
  {
  }

  /** Bits other than the four inspected ones (deletions, renames, conflicts, ...) never matter. */
  lemma MapStatusIgnoresOtherFlags(s: Status, t: Status)
    requires s * Inspected == t * Inspected
    ensures MapStatus(s) == MapStatus(t)
  {
    forall f | f in Inspected
      ensures f in s <==> f in t
    {
      assert f in s <==> f in s * Inspected;
      assert f in t <==> f in t * Inspected;
    }
  }

  /**
   * An independent reference for the classifier: an ordered rule table where each
   * rule names the bits it needs, and the first rule whose bits are all present wins.
   */
  datatype Rule = Rule(needs: set<StatusFlag>, result: FileStatus)

  const PrecedenceTable: seq<Rule> := [
    Rule({WtNew, IndexNew}, Partial),
    Rule({WtNew}, Untracked),
    Rule({IndexNew}, Staged),
    Rule({WtModified, IndexModified}, Partial),
    Rule({WtModified}, FileStatus.Modified),
    Rule({IndexModified}, Staged),
    Rule({}, Ok)
  ]

  function FirstMatch(table: seq<Rule>, s: Status): (r: Option<FileStatus>)
    ensures r.Some? <==> exists i :: 0 <= i < |table| && table[i].needs <= s
  {
    if table == [] then None
    else if table[0].needs <= s then Some(table[0].result)
    else
      var rest := FirstMatch(table[1..], s);
      assert forall i :: 1 <= i < |table| ==> table[i] == table[1..][i - 1];
      rest
  }

  lemma {:induction false} MapStatusFollowsPrecedenceTable(s: Status)
    ensures FirstMatch(PrecedenceTable, s) == Some(MapStatus(s))
  {
    var t0 := PrecedenceTable;
    var t1, t2, t3 := t0[1..], t0[2..], t0[3..];
    var t4, t5, t6 := t0[4..], t0[5..], t0[6..];
    assert t1[1..] == t2 && t2[1..] == t3 && t3[1..] == t4 && t4[1..] == t5 && t5[1..] == t6;
    assert FirstMatch(t6, s) == Some(Ok);
    assert FirstMatch(t5, s) == if IndexModified in s then Some(Staged) else Some(Ok);
    assert FirstMatch(t4, s) == if WtModified in s then Some(FileStatus.Modified) else FirstMatch(t5, s);
    assert FirstMatch(t3, s) == if WtModified in s && IndexModified in s then Some(Partial) else FirstMatch(t4, s);
    assert FirstMatch(t2, s) == if IndexNew in s then Some(Staged) else FirstMatch(t3, s);
    assert FirstMatch(t1, s) == if WtNew in s then Some(Untracked) else FirstMatch(t2, s);
    assert FirstMatch(t0, s) == if WtNew in s && IndexNew in s then Some(Partial) else FirstMatch(t1, s);
  }

  // ---------------------------------------------------------------------------
  // Labels (src/lib.rs:145-155)
  // ---------------------------------------------------------------------------

  /** The labels are fixed, one per status, and no two statuses share one. */
  lemma LabelsDistinct(s: FileStatus, t: FileStatus)
    ensures Ok.ToString() == "ok" && FileStatus.Modified.ToString() == "modified"
    ensures Staged.ToString() == "staged" && Partial.ToString() == "partially staged"
    ensures Untracked.ToString() == "untracked"
    ensures s.ToString() == t.ToString() ==> s == t
  {
  }

  // ---------------------------------------------------------------------------
  // Paths and the collaborator's answers
  // ---------------------------------------------------------------------------

  /**
   * A path component: its text as `to_string_lossy` renders it, and whether its
   * bytes are valid UTF-8 (so that `to_str` succeeds on it).
   */
  datatype Component = Component(text: string, unicode: bool)

  type Path = seq<Component>

  /** A path's text: its components' texts joined by '/'. */
  function Display(p: Path): string
  {
    if p == [] then ""
    else if |p| == 1 then p[0].text
    else Display(p[..|p| - 1]) + "/" + p[|p| - 1].text
  }

  /** `Path::strip_prefix`: the rest of `path` when `base` is a component prefix of it. */
  function StripPrefix(path: Path, base: Path): (r: Option<Path>)
    ensures r.Some? <==> base <= path
    ensures r.Some? ==> base + r.value == path
  {
    if base <= path then Some(path[|base|..]) else None
  }

  /** `Path::to_str`: the path's text, or nothing when some component is not UTF-8. */
  function ToStr(p: Path): (r: Option<string>)
    ensures r.Some? <==> forall i :: 0 <= i < |p| ==> p[i].unicode
    ensures r.Some? ==> r.value == Display(p)
  {
    if forall i :: 0 <= i < |p| ==> p[i].unicode then Some(Display(p)) else None
  }

  /** `IntoCString` on a `&str`: fails exactly when the text holds a NUL character. */
  function IntoCString(s: string): (r: Option<string>)
    ensures r.Some? <==> '\0' !in s
    ensures r.Some? ==> r.value == s
  {
    if '\0' in s then None else Some(s)
  }

  /** One line handed to the line callback of `Diff::foreach`. */
  datatype DiffLine = DiffLine(newLineno: Option<nat>, oldLineno: Option<nat>)

  /** What `Diff::foreach` does: the lines it hands to the callback, then whether it returns `Ok`. */
  datatype Diff = Diff(lines: seq<DiffLine>, foreachOk: bool)

  /**
   * The repository as the core sees it. A path missing from `statusFile` is a
   * failing `status_file`; a pathspec missing from `diffs` is a failing
   * `diff_index_to_workdir`.
   */
  datatype Repository = Repository(
    workdir: Option<Path>,
    statusFile: map<Path, Status>,
    diffs: map<string, Diff>)

  // ---------------------------------------------------------------------------
  // The line map (src/lib.rs:81-90)
  // ---------------------------------------------------------------------------

  /** The map the line callback leaves after being called on each of `lines` in turn. */
  function LineMapOf(lines: seq<DiffLine>): map<nat, LineStatus>
  {
    if lines == [] then map[]
    else
      var m := LineMapOf(lines[..|lines| - 1]);
      var line := lines[|lines| - 1];
      if line.newLineno.None? then m
      else m[line.newLineno.value := if line.oldLineno.Some? then Added else LineStatus.Modified]
  }

  /** The working-tree line numbers that occur in `lines`. */
  ghost function NewLinenos(lines: seq<DiffLine>): set<nat>
  {
    set i | 0 <= i < |lines| && lines[i].newLineno.Some? :: lines[i].newLineno.value
  }

  /** `lines[j]` is the last line that carries working-tree line number `n`. */
  ghost predicate LastWith(lines: seq<DiffLine>, j: int, n: nat)
  {
    && 0 <= j < |lines|
    && lines[j].newLineno == Some(n)
    && forall k :: j < k < |lines| ==> lines[k].newLineno != Some(n)
  }

  /** The map's keys are exactly the working-tree line numbers of the diff; deletions add none. */
  lemma {:induction false} LineMapKeys(lines: seq<DiffLine>)
    ensures LineMapOf(lines).Keys == NewLinenos(lines)
  {
    if lines != [] {
      var init := lines[..|lines| - 1];
      var last := lines[|lines| - 1];
      LineMapKeys(init);
      assert forall i :: 0 <= i < |init| ==> init[i] == lines[i];
      if last.newLineno.None? {
        assert NewLinenos(lines) == NewLinenos(init);
      } else {
        assert NewLinenos(lines) == NewLinenos(init) + {last.newLineno.value};
      }
    }
  }

  /**
   * The status stored for `n` comes from the last line carrying `n`: `Added` when
   * that line has an old line number, `Modified` when it has none.
   */
  lemma {:induction false} LineMapLastWriterWins(lines: seq<DiffLine>, j: int, n: nat)
    requires LastWith(lines, j, n)
    ensures n in LineMapOf(lines)
    ensures LineMapOf(lines)[n] == if lines[j].oldLineno.Some? then Added else LineStatus.Modified
  {
    if j < |lines| - 1 {
      var init := lines[..|lines| - 1];
      assert LastWith(init, j, n);
      LineMapLastWriterWins(init, j, n);
    }
  }

  /** Single-line diffs and the empty diff, with the orientation the code has. */
  lemma LineMapSmallDiffs(n: nat, o: nat)
    ensures LineMapOf([]) == map[]
    ensures LineMapOf([DiffLine(Some(n), Some(o))]) == map[n := Added]
    ensures LineMapOf([DiffLine(Some(n), None)]) == map[n := LineStatus.Modified]
    ensures LineMapOf([DiffLine(None, Some(o))]) == map[]
  {
  }

  // ---------------------------------------------------------------------------
  // FileData (src/lib.rs:45-106)
  // ---------------------------------------------------------------------------

  /** The immutable per-file snapshot. */
  datatype FileData = FileData(status: FileStatus, lineMap: map<nat, LineStatus>)
  {
    function Status(): FileStatus
    {
      status
    }

    function StatusOfLine(lineNo: nat): Option<LineStatus>
    {
      if lineNo in lineMap then Some(lineMap[lineNo]) else None
    }

    /**
     * `FileData::from`: every `?` that meets a failure ends the whole call with
     * `None`; the line map is filled one line at a time while the diff is walked.
     */
    static method From(repo: Option<Repository>, path: Option<Path>) returns (r: Option<FileData>)
      ensures r == Snapshot(repo, path)
    {
      if repo.None? { return None; }
      var rp := repo.value;
      if path.None? { return None; }
      if rp.workdir.None? { return None; }
      var rel := StripPrefix(path.value, rp.workdir.value);
      if rel.None? { return None; }
      if rel.value !in rp.statusFile { return None; }
      var status := MapStatus(rp.statusFile[rel.value]);
      var text := ToStr(rel.value);
      if text.None? { return None; }
      var pathspec := IntoCString(text.value);
      if pathspec.None? { return None; }
      if pathspec.value !in rp.diffs { return None; }
      var diff := rp.diffs[pathspec.value];

      var lineMap: map<nat, LineStatus> := map[];
      var i := 0;
      while i < |diff.lines|
        invariant 0 <= i <= |diff.lines|
        invariant lineMap == LineMapOf(diff.lines[..i])
      {
        var line := diff.lines[i];
        if line.newLineno.Some? {
          var lineStatus := if line.oldLineno.Some? then Added else LineStatus.Modified;
          lineMap := lineMap[line.newLineno.value := lineStatus];
        }
        assert diff.lines[..i + 1][..i] == diff.lines[..i];
        i := i + 1;
      }
      assert diff.lines[..i] == diff.lines;
      if !diff.foreachOk { return None; }
      return Some(FileData(status, lineMap));
    }
  }

  /** The path relative to the working directory, when there is one. */
  function RelativePath(repo: Repository, path: Path): Option<Path>
  {
    if repo.workdir.None? then None else StripPrefix(path, repo.workdir.value)
  }

  /** The pathspec handed to the diff: the relative path's text as a C string. */
  function Pathspec(rel: Path): Option<string>
  {
    var text := ToStr(rel);
    if text.None? then None else IntoCString(text.value)
  }

  /** What `FileData::from` returns, as a function of the collaborator's answers. */
  function Snapshot(repo: Option<Repository>, path: Option<Path>): Option<FileData>
  {
    if repo.None? || path.None? then None
    else
      var rp := repo.value;
      var rel := RelativePath(rp, path.value);
      if rel.None? || rel.value !in rp.statusFile then None
      else
        var spec := Pathspec(rel.value);
        if spec.None? || spec.value !in rp.diffs || !rp.diffs[spec.value].foreachOk then None
        else Some(FileData(MapStatus(rp.statusFile[rel.value]), LineMapOf(rp.diffs[spec.value].lines)))
  }

  // ---------------------------------------------------------------------------
  // What a snapshot says (src/lib.rs:51-105)
  // ---------------------------------------------------------------------------

  /** Without a repository, a path, a working directory containing the path, there is no snapshot. */
  lemma SnapshotNeedsPathUnderWorkdir(repo: Option<Repository>, path: Option<Path>)
    ensures Snapshot(repo, path).Some? ==>
      repo.Some? && path.Some? && repo.value.workdir.Some? && repo.value.workdir.value <= path.value
  {
  }

  /**
   * For a path under the working directory, a snapshot exists exactly when the
   * status lookup, `to_str`, the C-string conversion, the diff and its walk all
   * succeed; it then holds the classified status and the map built from the whole diff.
   */
  lemma SnapshotUnderWorkdir(repo: Repository, path: Path)
    requires repo.workdir.Some? && repo.workdir.value <= path
    ensures var rel := path[|repo.workdir.value|..];
      Snapshot(Some(repo), Some(path)).Some? <==>
        && rel in repo.statusFile
        && (forall i :: 0 <= i < |rel| ==> rel[i].unicode)
        && '\0' !in Display(rel)
        && Display(rel) in repo.diffs
        && repo.diffs[Display(rel)].foreachOk
    ensures var rel := path[|repo.workdir.value|..];
      Snapshot(Some(repo), Some(path)).Some? ==>
        Snapshot(Some(repo), Some(path)).value ==
          FileData(MapStatus(repo.statusFile[rel]), LineMapOf(repo.diffs[Display(rel)].lines))
  {
  }

  /**
   * `status()` gives the stored status unchanged, and `status_of_line(n)` is `None`
   * exactly when no diff line carries `n`, else the status of the last line carrying it.
   */
  lemma {:induction false} FileDataQueries(status: FileStatus, lines: seq<DiffLine>, n: nat, j: int)
    ensures FileData(status, LineMapOf(lines)).Status() == status
    ensures FileData(status, LineMapOf(lines)).StatusOfLine(n).None? <==>
      forall i :: 0 <= i < |lines| ==> lines[i].newLineno != Some(n)
    ensures LastWith(lines, j, n) ==>
      FileData(status, LineMapOf(lines)).StatusOfLine(n) ==
        Some(if lines[j].oldLineno.Some? then Added else LineStatus.Modified)
  {
    LineMapKeys(lines);
    if exists i :: 0 <= i < |lines| && lines[i].newLineno == Some(n) {
      var i :| 0 <= i < |lines| && lines[i].newLineno == Some(n);
      assert n in NewLinenos(lines);
    }
    if LastWith(lines, j, n) {
      LineMapLastWriterWins(lines, j, n);
    }
  }

  /** An untracked file is still diffed: nothing forces its line map to be empty. */
  lemma UntrackedSnapshotMayHaveLines()
    ensures
      var repo := Repository(
        Some([Component("w", true)]),
        map[[Component("f", true)] := {WtNew}],
        map["f" := Diff([DiffLine(Some(1), None)], true)]);
      Snapshot(Some(repo), Some([Component("w", true), Component("f", true)])) ==
        Some(FileData(Untracked, map[1 := LineStatus.Modified]))
  {
  }
}
