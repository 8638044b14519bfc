# qlocate search controller in Dafny

qlocate is a small Qt front end to `locate`. Its dialog starts `locate` when the query or one of
the four check boxes changes. It then reads locate's output a chunk at a time and fills a list
widget with the matching paths. It also keeps a status label up to date. This project models
that controller in `dialog.cpp` and proves properties of the model:

- **Search guard and command builder.** `Dialog::onFind` does nothing when the query and the
  four check boxes are unchanged. Otherwise it stores them, clears the list, and either shows
  "Ready." for an empty query or empties the line buffer and starts locate with a fixed
  argument list.
- **Incremental line splitter.** `Dialog::readLocateOutput` appends the chunk to the buffer
  and splits on newlines. It keeps the last piece as the new buffer and filters the complete
  lines to the home directory when home-only is on. It appends one item per surviving line
  and rewrites the status when the count changed.
- **Final status.** `Dialog::locateFinished` shows the final count, turns the label red
  exactly when nothing was found, and releases the process.
- **Path helpers.** These cover the basename shown as an item's label, the full path read
  back from an item, and the folder that "Open Folder" opens.

Layout:

- `wrappers.dfy`: `Option`.
- `text.dfy` (module `Text`): the QString operations the controller relies on. These are
  `split` with empty parts kept and its inverse `Join`, `lastIndexOf`, and the decimal
  rendering of a count.
- `paths.dfy` (module `Paths`): the home filter, the basename and the folder strip.
- `dialog.dfy` (module `Dialog`): the argument list, the items, the status messages and the
  class `Dialog`.

The class holds these fields:

- the stored search parameters;
- the buffer `lastPartialLine`;
- the items `rows`;
- the status text and its red flag;
- a `running` flag that stands for the process handle, with the arguments it was started with.

Two ghost fields record all output read since the search started and every complete line
split off it. `Valid()` says three things:

- The buffer holds no newline, and the output read so far is the complete lines, each
  followed by a newline, then the buffer.
- The items are exactly the surviving lines, in order.
- While locate runs, the query is non-empty and the status shows the running count in the
  normal colour.

## Model

| member | source | states |
|---|---|---|
| Dialog.Dialog.constructor | dialog.cpp:59-63 | the first search parameters are an empty query, case-insensitive, no regexp, home only, short labels; no items, no process, status in the normal colour; the invariant holds |
| Dialog.Dialog.OnFind | dialog.cpp:89-137 | unchanged parameters change nothing; otherwise they are stored, the process is stopped, the items cleared and the colour reset; an empty query shows "Ready." and starts nothing, and the buffer is kept; any other query empties the buffer, shows "Searching..." and starts locate with LocateArgs of the new parameters; the invariant is preserved |
| Dialog.LocateArgs | dialog.cpp:128-134 | the command line has three to five arguments, starts with --existing and --basename and ends with the query text |
| Dialog.LocateArgsShape | dialog.cpp:128-134 | the arguments begin with --existing and --basename and end with the query text; --ignore-case is present exactly when the search is not case-sensitive, --regexp exactly when regexp is on |
| Dialog.ArgsRoundTrip | dialog.cpp:128-134 | reading the argument list back gives exactly the query text, the ignore-case choice and the regexp choice: no two searches that differ in these share a command line |
| Dialog.Dialog.ReadLocateOutput | dialog.cpp:161-196 | the new buffer is the last piece of old buffer + chunk split on newlines; the earlier pieces become complete lines; the surviving ones are appended as items after the existing ones; the status becomes the progress message exactly when the item count changed and is otherwise untouched; the invariant is preserved |
| Dialog.Dialog.TakeLines | dialog.cpp:165-168 | the buffering step: the returned complete lines and the new buffer are what splitting old buffer + chunk yields, and the stream invariant still holds |
| Dialog.Dialog.AddItems | dialog.cpp:172-186 | the loop appends one item per path, in order, and leaves the existing items alone |
| Dialog.ReadKeepsConsistent | dialog.cpp:165-168 | one read keeps the stream invariant: the new buffer is newline-free, the new lines are newline-free, and everything read is the lines with their newlines plus the buffer |
| Dialog.ReadReconstructs | dialog.cpp:165-168 | after a single read the new buffer has no newline, and old buffer + chunk is the split-off lines, each followed by a newline, then the new buffer |
| Dialog.StreamState | dialog.cpp:165-168 | in any valid state the lines and the buffer are exactly the split of all output read; the buffer is the text after the last newline; there is one line per newline; output ending in a newline leaves the buffer empty |
| Dialog.FragmentCompleted | dialog.cpp:165-168 | the buffered fragment becomes an item candidate only on the read that brings its newline, and then whole, as the first complete line of that read |
| Dialog.NoNewlineNoRows | dialog.cpp:165-168 | a read that brings no newline only grows the buffer and adds no item |
| Dialog.SurvivorsAppend | dialog.cpp:169-170 | filtering the lines of two reads is filtering each read and concatenating |
| Dialog.RowsAppend | dialog.cpp:172-186 | the items of two batches of paths are the items of each batch, concatenated |
| Dialog.MakeRow | dialog.cpp:174-184 | an item's label ends its path: the whole path in full-path mode; in short mode a label with no slash, and the full path as tool tip |
| Dialog.RolePath | dialog.cpp:206 | the role that openFile and openFolder read from an item (display in full-path mode, tool tip otherwise) gives back the path the item was made from |
| Dialog.Survivors | dialog.cpp:169-170 | the lines that become items are never more than the complete lines; a line is among them exactly when it is a complete line and, with home-only on, lies under home |
| Dialog.ProgressStatus | dialog.cpp:191-194 | the progress message starts "Searching ("; for one row it continues "1 file found)..."; otherwise it is the decimal count followed by " files found)..." |
| Dialog.ProgressStatusInjective | dialog.cpp:188-195 | different non-zero counts give different progress messages |
| Dialog.FinalStatus | dialog.cpp:231-244 | for more than one row the final message is the decimal count followed by " files found."; for one row it is "1 file found."; it is "Nothing found." exactly when there are no rows |
| Dialog.FinalStatusInjective | dialog.cpp:228-245 | different counts give different final messages, so "Nothing found." is shown only for zero items |
| Dialog.Dialog.LocateFinished | dialog.cpp:228-249 | the status is "N files found." for N > 1, "1 file found." for one item and "Nothing found." for none; the label is red exactly when there are no items; the process handle is released |
| Dialog.Dialog.OpenFile | dialog.cpp:204-209 | with an item selected, the opener gets the full path of the line that item was made from; with none, nothing is opened |
| Dialog.Dialog.OpenFolder | dialog.cpp:211-216 | with an item selected, the opener gets the corrected folder (FolderOf) of that item's full path, which is the source's strip except for a file directly under the root; with none, nothing is opened |
| Paths.UnderHome | dialog.cpp:170 | a path matches the escaped, anchored home pattern exactly when it is the home path, a slash and any rest |
| Paths.HomeOnly | dialog.cpp:169-170 | the filter never adds lines |
| Paths.HomeOnlyMembers | dialog.cpp:169-170 | a line survives exactly when it is one of the lines and starts with the home path followed by a slash, the home path taken literally |
| Paths.HomeOnlyAppend | dialog.cpp:169-170 | the filter commutes with concatenation, so survivors keep their relative order |
| Paths.HomeOnlySingle | dialog.cpp:169-170 | a single line survives exactly when it lies under home |
| Paths.Basename | dialog.cpp:182 | the label contains no slash and is a suffix of the path |
| Paths.BasenameOfFolderPath | dialog.cpp:182 | the label of folder + "/" + name is name, and a path without a slash is its own label |
| Paths.ParentFolder | dialog.cpp:215 | if the path ends in a slash followed by a non-empty, slash-free component, exactly that suffix is removed; otherwise the path is unchanged |
| Paths.ParentOfFolderPath | dialog.cpp:215 | the folder stripped from folder + "/" + name, for a non-empty file name, is folder |
| Paths.ParentAndBasename | dialog.cpp:215 | when the pattern matches, the folder, a slash and the label put back together are the path |
| Paths.ParentOfRootFile | dialog.cpp:215 | as written, a file directly under the root yields the empty folder |
| Paths.FolderOfFolderPath | dialog.cpp:215 | corrected: folder + "/" + name opens folder, or "/" when folder is empty |
| Paths.FolderOf | dialog.cpp:215 | corrected: wherever the strip gives a non-empty folder the correction agrees with it, and an absolute path always opens a non-empty absolute folder |
| Text.Split | dialog.cpp:166 | split with empty parts kept: at least one part, no part holds the separator, and joining the parts gives the text back |
| Text.SplitJoin | dialog.cpp:166 | splitting the join of separator-free parts gives the parts back |
| Text.Decomposition | dialog.cpp:166-168 | complete lines and a trailing fragment, all newline-free, that put back together give the text are exactly what split yields |
| Text.SplitCount | dialog.cpp:166-168 | split yields one more part than the text has separators |
| Text.SplitLastIsAfterLast | dialog.cpp:166-167 | the last part is the text after the last separator |
| Text.LastIndexOf | dialog.cpp:182 | the result is -1 or a position of the character, and no occurrence follows it |
| Text.Decimal | dialog.cpp:194 | the rendering of a count is a non-empty string of digits with no leading zero |
| Text.DecimalRoundTrip | dialog.cpp:194 | reading the rendering back gives the count |
| Text.DecimalInjective | dialog.cpp:194 | different counts render differently |

## Left out

- Process handling is reduced to the `running` flag and the recorded `args`. Starting, terminating and waiting for locate, the signal connections, and the deferred delete are not modelled, because they are operating-system I/O and event delivery.
- Dialog.Dialog.OnFind: `finished` and `readyReadStandardOutput` can be delivered while it waits for the old process. Their effects on the items, the status and the colour are overwritten right after. One effect is not modelled: output read during that wait still reaches the buffer, and the empty-query branch keeps the buffer.
- Dialog.Dialog.ReadLocateOutput, Dialog.Dialog.OpenFile and Dialog.Dialog.OpenFolder read the home-only and full-path choices from the stored parameters rather than from the check boxes. Every check box's `toggled` signal is connected to onFind (dialog.cpp:64-67), so the two agree whenever output is read or an item is opened.
- Dialog.Dialog.ReadLocateOutput takes the chunk as already-decoded text. UTF-8 decoding of the raw bytes is not modelled.
- The home directory is a constant fixed when the dialog is built. The environment lookup behind it is not modelled.
- The five remembered fields (the query and the four check boxes) are one `SearchParams` value. The comparison in onFind is equality of that value.
- The argument list is the value of `LocateArgs`, not a list grown step by step.
- The item icons, the `xdg-open` and `gksudo updatedb` launches, the tray icon, both context menus, show/hide toggling, the close, change and quit handlers and the 500 ms debounce timer are not modelled. They are UI plumbing, foreign calls or wall-clock timing.
- The label palette is reduced to the boolean `statusRed`. Translation through `tr` is the identity.
- The initial status text comes from the form file, which is not part of this model. It is a constructor parameter.
- Dialog.Dialog.OpenFolder opens the corrected folder `Paths.FolderOf`, not the source's strip `Paths.ParentFolder`. The two differ only for a file directly under the root: the source hands the opener "" (see Findings), the model hands it "/".
- Dialog.Dialog.OpenFile and Dialog.Dialog.OpenFolder take the current selection as a parameter (none, or an item index). The selection itself lives in the widget.
- mainwindow.h holds only declarations. There is no behaviour in it to model.

## Findings

| source | as written | input that shows it | evidently intended | confidence | as-written member | corrected member |
|---|---|---|---|---|---|---|
| dialog.cpp:215 | the folder strip removes the last slash together with the final component, so a file directly under the root loses its only slash | the path "/vmlinuz" yields the empty string as the folder to open | open the root folder "/" | medium, not executed | Paths.ParentOfRootFile | Paths.FolderOfFolderPath |

Dialog.Dialog.OpenFolder uses the corrected `Paths.FolderOf`.
