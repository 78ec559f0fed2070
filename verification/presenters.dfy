/**
 * The status-line builders of src/presenters/mod.rs. The editor workspace is
 * reduced to its current buffer (the path it reports for it and whether it is
 * modified) and the view's status-line record to a local datatype.
 */
module Presenters {
  import opened Wrappers
  import Git

  datatype Style = Default | Bold

  datatype Colors = Default | Focused

  /** What the view draws in one segment of the status line. */
  datatype StatusLineData = StatusLineData(content: string, style: Style, colors: Colors)

  /** The current buffer: the path the workspace reports for it, if any, and its modified flag. */
  datatype Buffer = Buffer(path: Option<Git.Path>, modified: bool)

  datatype Workspace = Workspace(currentBuffer: Option<Buffer>)

  function CurrentBufferPath(workspace: Workspace): Option<Git.Path>
  {
    if workspace.currentBuffer.None? then None else workspace.currentBuffer.value.path
  }

  /** The buffer's modified flag, read as `false` when there is no current buffer. */
  function CurrentBufferModified(workspace: Workspace): (modified: bool)
    ensures workspace.currentBuffer.None? ==> !modified
    ensures workspace.currentBuffer.Some? ==> modified == workspace.currentBuffer.value.modified
  {
    workspace.currentBuffer.Some? && workspace.currentBuffer.value.modified
  }

  /** A title is one space followed by the path's text. */
  function PathAsTitle(path: Git.Path): (title: string)
    ensures |title| == |Git.Display(path)| + 1
    ensures title[0] == ' ' && title[1..] == Git.Display(path)
  {
    " " + Git.Display(path)
  }

  /** The current buffer's title: marked with `*` and bold when modified, empty without a path. */
  function CurrentBufferStatusLineData(workspace: Workspace): (r: StatusLineData)
    ensures r.colors == Focused
    ensures CurrentBufferPath(workspace).None? ==> r.content == "" && r.style == Style.Default
    ensures CurrentBufferPath(workspace).Some? && CurrentBufferModified(workspace) ==>
      r.content == PathAsTitle(CurrentBufferPath(workspace).value) + "*" && r.style == Bold
    ensures CurrentBufferPath(workspace).Some? && !CurrentBufferModified(workspace) ==>
      r.content == PathAsTitle(CurrentBufferPath(workspace).value) && r.style == Style.Default
  {
    var modified := CurrentBufferModified(workspace);
    var path := CurrentBufferPath(workspace);
    var (content, style) :=
      if path.None? then ("", Style.Default)
      else if modified then (PathAsTitle(path.value) + "*", Bold)
      else (PathAsTitle(path.value), Style.Default);
    StatusLineData(content, style, Focused)
  }

  /**
   * Modifying a buffer with a path changes its title only by a trailing `*` and
   * turns it bold; the title of a buffer with a path is never empty.
   */
  lemma ModifiedTitleAddsAsterisk(path: Git.Path)
    ensures
      var clean := CurrentBufferStatusLineData(Workspace(Some(Buffer(Some(path), false))));
      var dirty := CurrentBufferStatusLineData(Workspace(Some(Buffer(Some(path), true))));
      && dirty.content == clean.content + "*"
      && clean.content != ""
      && clean.style == Style.Default && dirty.style == Bold
  {
  }

  /** The git segment: the status label in brackets, or nothing without a snapshot. */
  function GitStatusLineData(data: Option<Git.FileData>): (r: StatusLineData)
    ensures r.style == Style.Default && r.colors == Focused
    ensures data.None? ==> r.content == ""
    ensures data.Some? ==>
      && |r.content| == |data.value.Status().ToString()| + 2
      && r.content[0] == '[' && r.content[|r.content| - 1] == ']'
      && r.content[1..|r.content| - 1] == data.value.Status().ToString()
  {
    var content := if data.Some? then "[" + data.value.Status().ToString() + "]" else "";
    StatusLineData(content, Style.Default, Focused)
  }

  /** The git segment tells every file status apart, and a snapshot from none. */
  lemma {:induction false} GitStatusContentIdentifiesStatus(a: Option<Git.FileData>, b: Option<Git.FileData>)
    requires GitStatusLineData(a).content == GitStatusLineData(b).content
    ensures a.None? <==> b.None?
    ensures a.Some? ==> a.value.Status() == b.value.Status()
  {
    var c := GitStatusLineData(a).content;
    if a.Some? && b.Some? {
      assert a.value.Status().ToString() == c[1..|c| - 1] == b.value.Status().ToString();
      Git.LabelsDistinct(a.value.Status(), b.value.Status());
    }
  }
}
