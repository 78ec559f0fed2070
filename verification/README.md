# amp git status engine, in Dafny

A model of the version-control status engine of the amp editor: the `git` module of
`src/lib.rs` and the status-line builders of `src/presenters/mod.rs` that render it.

- `Git.MapStatus` classifies git's status bits for one file (`WT_NEW`, `INDEX_NEW`,
  `WT_MODIFIED`, `INDEX_MODIFIED`; all other bits ignored) into one of five
  `FileStatus` values. Its precedence is proved equal to an ordered rule table.
- `Git.FileData.From` is `FileData::from`. It resolves the path against the
  working directory and asks for the file's status flags. It converts the relative path
  to a pathspec and asks for a zero-context diff. It then walks the diff lines in a loop,
  filling a `map<nat, LineStatus>` keyed by working-tree line number. Each `?` early
  exit is a `None` result. The method is proved to return `Git.Snapshot`, and the
  lemmas beside it describe that function.
- `Presenters` builds the buffer title segment and the `[label]` git segment.

The git2 library is a parameter (`Git.Repository`) and is not modelled itself:
- the working directory, or none;
- a map from relative path to status bits (a missing path is a failing `status_file`);
- a map from pathspec text to a `Git.Diff` (a missing pathspec is a failing
  `diff_index_to_workdir`). A `Git.Diff` holds the lines `Diff::foreach` hands to the
  line callback and whether `foreach` then returned `Ok`.

## Behaviour as coded

The model follows the code where the project's own description of the engine says otherwise:
- A diff line that has an old line number is tagged `Added`; one without is tagged
  `Modified` (src/lib.rs:83-86). The description has these the other way round.
- The diff is taken for every file, `Untracked` ones included. So an untracked
  snapshot may have a non-empty line map (`Git.UntrackedSnapshotMayHaveLines`).
- A failing diff or a failing `foreach` makes the whole result `None`
  (src/lib.rs:61, src/lib.rs:90). It does not fall back to an empty line map, even
  when some lines were already recorded.

## Model

| member | source | states |
|---|---|---|
| `Git.MapStatus` | src/lib.rs:108-135 | both "new" bits give `Partial`; `WT_NEW` alone gives `Untracked`; `INDEX_NEW` without `WT_NEW` gives `Staged` whatever the modified bits say; with no "new" bit, both modified bits give `Partial`, `WT_MODIFIED` alone `Modified`, `INDEX_MODIFIED` alone `Staged`; none of the four gives `Ok` |
| `Git.MapStatusPartition` | src/lib.rs:108-135 | for each of the five statuses, the exact set of flag combinations that yields it (both directions), so every combination lands in exactly one status |
| `Git.MapStatusIgnoresOtherFlags` | src/lib.rs:108-135 | two bit sets that agree on the four inspected bits classify the same (a working-tree deletion alone reads as `Ok`) |
| `Git.MapStatusFollowsPrecedenceTable` | src/lib.rs:108-135 | the classifier equals first-match over the ordered rule table: new+new, worktree-new, index-new, modified+modified, worktree-modified, index-modified, catch-all |
| `Git.FileStatus.ToString` | src/lib.rs:145-155 | every status has a non-empty label |
| `Git.LabelsDistinct` | src/lib.rs:145-155 | the labels are `ok`, `modified`, `staged`, `partially staged`, `untracked`, and no two statuses share a label |
| `Git.StripPrefix` | src/lib.rs:54 | succeeds exactly when the working directory is a component prefix of the path; the prefix and the result rebuild the path |
| `Git.ToStr` | src/lib.rs:60 | succeeds exactly when every component is valid UTF-8, giving the path's text |
| `Git.IntoCString` | src/lib.rs:60 | fails exactly when the text holds a NUL character, else keeps the text |
| `Git.LineMapKeys` | src/lib.rs:81-90 | the line map's keys are exactly the working-tree line numbers of the diff lines; lines with no new line number (deletions) add no key |
| `Git.LineMapLastWriterWins` | src/lib.rs:82-87 | the status stored for `n` comes from the last diff line carrying `n`: `Added` if that line has an old line number, `Modified` if not |
| `Git.LineMapSmallDiffs` | src/lib.rs:81-90 | the empty diff gives the empty map; one line with both numbers gives `{n: Added}`, one with only a new number `{n: Modified}`, one with only an old number nothing |
| `Git.FileData.From` | src/lib.rs:51-97 | the loop over the diff lines keeps the map equal to the map of the lines seen so far, and the method returns exactly `Snapshot(repo, path)` |
| `Git.SnapshotNeedsPathUnderWorkdir` | src/lib.rs:52-54 | no snapshot without a repository, a path, a working directory, and the path under that working directory |
| `Git.SnapshotUnderWorkdir` | src/lib.rs:54-97 | for a path under the working directory, a snapshot exists exactly when the status lookup, `to_str`, the C-string conversion, the diff and the walk all succeed; it then holds the classified status and the map of the whole diff, never a partial one |
| `Git.FileDataQueries` | src/lib.rs:99-105 | `status()` returns the stored status unchanged; `status_of_line(n)` is `None` exactly when no diff line carries `n`, else the status from the last line carrying `n` |
| `Git.UntrackedSnapshotMayHaveLines` | src/lib.rs:56-61 | an `Untracked` file whose diff yields a line gets a snapshot with that line in its map |
| `Presenters.CurrentBufferModified` | src/presenters/mod.rs:14 | without a current buffer the modified flag reads `false`, else it is the buffer's flag |
| `Presenters.PathAsTitle` | src/presenters/mod.rs:9-11 | a title is one space followed by the path's text |
| `Presenters.CurrentBufferStatusLineData` | src/presenters/mod.rs:13-34 | with a path and a modified buffer: title plus `*`, bold; with a path, unmodified: the title, default style; without a path: empty, default style; colours always focused |
| `Presenters.ModifiedTitleAddsAsterisk` | src/presenters/mod.rs:18-26 | for the same path, the modified title is the unmodified one plus `*`, which is non-empty; only the modified one is bold |
| `Presenters.GitStatusLineData` | src/presenters/mod.rs:36-49 | with a snapshot, the content is `[`, the status label, `]`; without one it is empty; style default and colours focused always |
| `Presenters.GitStatusContentIdentifiesStatus` | src/presenters/mod.rs:38-42 | equal git segments come from equal file statuses, and a snapshot's segment never equals the empty one |

## Left out

- git2 itself (`Repository`, `workdir`, `status_file`, `DiffOptions`, `diff_index_to_workdir`, `Diff::foreach`): foreign code with filesystem I/O. Its answers are the inputs described above.
- Which files a pathspec matches: git treats a pathspec as a pattern, so a path with glob characters could pull in other files' lines. The model takes whatever diff the repository reports for the pathspec text.
- Paths are sequences of components, and a path's text is the components joined by `/`. Raw bytes, the root, repeated separators and the exact replacement done by `to_string_lossy` are not modelled. `strip_prefix` is a component-prefix test.
- `Diff::foreach`'s file, binary and hunk callbacks: the code passes `|_, _| true` and `None` for them, so they never stop the walk. The line callback always returns `true`; a failing `foreach` is the `foreachOk` flag.
- Integer widths: line numbers are git's `u32` widened to `usize`, which loses nothing. They are modelled as `nat`.
- The commented-out hunk-range code in `FileData::from` is dead and not modelled. The crate and module declarations carry no logic.
- `scribe::Workspace` is reduced to its current buffer. The view types are reduced to local datatypes: `Style` has `Default` and `Bold`, `Colors` has `Default` and `Focused`. Their other variants are not used here.
- src/input/modes/jump.rs is a key-to-command table with no logic of its own; it is not part of this model.
- `Git.FileData.Status`, `Git.FileData.StatusOfLine`: no contract of their own; `Git.FileDataQueries` states what they return on a snapshot.
