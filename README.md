# writeandexecute: the marked-block file updater

This project models the `%%writeandexecute` IPython cell magic from
`extensions/writeandexecute.py`. The magic writes a cell's code into a `.py`
file, between two marker lines `# -- ==<identifier>== --`, and then runs the
cell. Running it again with the same identifier replaces that block where it
stands. A different identifier appends a new block at the end of the file.

The model has four modules:

- `Wrappers` (`wrappers.dfy`): `Option` and `Result`.
- `PyLib` (`pylib.dfy`): the two Python library functions the update relies on.
  - `str.strip()` with no arguments, over the whitespace set of Python's `str.isspace`.
  - The root half of POSIX `os.path.splitext`.
- `MarkedBlocks` (`marked_blocks.dfy`): the heart of `_save_to_file`.
  - `Merge` is the specification function of the update over the lines of an existing file.
  - `MergeLines` is the line-by-line loop with the `in_code_block` / `included_new` flags. It is proved equal to `Merge`.
  - The lemmas state what the update does: replace, append, unterminated block, third-marker error, idempotence, read-back, other blocks untouched.
- `WriteAndExecute` (`write_and_execute.dfy`): the rest of the magic.
  - `CheckArguments` holds the argument guards.
  - `PyPath` gives the `.py` target.
  - `Save` / `SaveToFile` work over a file system modelled as a map from path to the file's lines; a missing key means no such file.
  - `WriteAndExecute` composes the guards and the save.

Each file is a list of lines with the line breaks removed, as the loop sees
them after cutting the trailing `"\n"`. The core is stated over an arbitrary
marker line `m`. The lemmas that need the marker's shape take
`m == Marker(identifier)`. The results about updating twice and reading
a block back (`NewFileStable`, `MergeIdempotent`, `BlockRoundTrip`,
`SaveRoundTrip`, `SaveIdempotent`) assume the new content is not itself a
marker line: with `Merge([], M, M)` the output holds three markers and a
second update fails.

Two behaviours of the code are worth stating; the model follows the code:

- An opening marker with no closing marker is not an error. Everything from
  that marker to the end of the file is dropped, and the output ends with the
  marker and the new content (`UnterminatedBlock`).
- An identifier made only of whitespace passes the guard. Only a missing or
  empty `-i` option is rejected (`CheckArguments`).

## Model

| member | source | states |
|---|---|---|
| PyLib.Strip | extensions/writeandexecute.py:122 | `strip()` never lengthens a line and leaves no whitespace at either end |
| PyLib.LStripSuffix | extensions/writeandexecute.py:122 | stripping the front leaves a suffix that does not start with whitespace, and only whitespace was removed |
| PyLib.RStripPrefix | extensions/writeandexecute.py:122 | stripping the back leaves a prefix that does not end with whitespace, and only whitespace was removed |
| PyLib.StripSlice | extensions/writeandexecute.py:122 | `strip()` returns a contiguous slice of the line; everything outside it is whitespace |
| PyLib.StripUnpadded | extensions/writeandexecute.py:122 | a line that neither starts nor ends with whitespace is its own strip |
| PyLib.RFind | extensions/writeandexecute.py:104 | the result is -1 or an index holding the character, with no occurrence after it |
| PyLib.SplitExtRoot | extensions/writeandexecute.py:104 | the root is a prefix of the path |
| PyLib.SplitExtRootSpec | extensions/writeandexecute.py:104 | when the root is shorter, the rest starts with the last dot of the final component, holds no slash, and a non-dot character precedes the dot in that component; a final component without a dot is kept whole |
| PyLib.SplitExtRootOfExtension | extensions/writeandexecute.py:104 | splitting `stem.e` with a dot-free, slash-free `e` gives back `stem` when the stem's last component has a non-dot character |
| MarkedBlocks.Marker | extensions/writeandexecute.py:105 | the marker is the identifier between the fixed `# -- ==` and `== --`, so the identifier can be read back from it |
| MarkedBlocks.NewFile | extensions/writeandexecute.py:111 | a new file holds the header and then a block whose only marker lines are lines 1 and 3 |
| MarkedBlocks.Appendix | extensions/writeandexecute.py:142 | the appended group is a blank line, a block whose only marker lines are its lines 1 and 3, and a blank line |
| MarkedBlocks.Merge | extensions/writeandexecute.py:114-142 | the update of an existing file succeeds exactly when it has at most two marker lines; a failure names a 1-based line that is a marker |
| MarkedBlocks.MergeLines | extensions/writeandexecute.py:114-142 | the loop with the two flags returns exactly `Merge`: the updated lines, or the 1-based line number of a third marker |
| MarkedBlocks.KeptSnoc | extensions/writeandexecute.py:122-139 | one loop step: an opening marker emits the canonical marker and the content, lines inside the block are dropped, every other line (including the closing marker) is kept as read |
| MarkedBlocks.PositionsSpec | extensions/writeandexecute.py:122 | the recorded marker positions are exactly the matching lines, in increasing order |
| MarkedBlocks.MarkersSpec | extensions/writeandexecute.py:122 | the marker positions of a file are exactly its lines whose strip equals the marker, in increasing order |
| MarkedBlocks.MarkerIsStripped | extensions/writeandexecute.py:105 | a marker line is its own strip, so the canonical marker written back is recognised on the next run |
| MarkedBlocks.MarkerInjective | extensions/writeandexecute.py:105 | distinct identifiers have distinct markers |
| MarkedBlocks.HeaderIsPlainLine | extensions/writeandexecute.py:111 | the coding header of a new file is never a marker line |
| MarkedBlocks.NewlineIsPlainLine | extensions/writeandexecute.py:142 | the blank separator lines of an appended block are never marker lines |
| MarkedBlocks.NewFileBlock | extensions/writeandexecute.py:111 | a new file has its markers at lines 1 and 3 and its block reads back as the content |
| MarkedBlocks.NewFileStable | extensions/writeandexecute.py:111 | updating a freshly created file with the same content leaves it as it is |
| MarkedBlocks.AppendWhenNoMarker | extensions/writeandexecute.py:141-142 | a file without the marker keeps every line and gains a blank line, the block and a blank line at the end |
| MarkedBlocks.ReplaceBlock | extensions/writeandexecute.py:122-139 | with two markers the block is replaced in place: lines before and from the closing marker on are kept, the opening marker is rewritten canonically, the old block lines are dropped |
| MarkedBlocks.UnterminatedBlock | extensions/writeandexecute.py:129-141 | a single marker is not an error: the output is the lines before it, the marker and the content, with nothing appended |
| MarkedBlocks.ThirdMarkerError | extensions/writeandexecute.py:121-126 | the update fails with line `n` if and only if line `n` is a marker and two markers precede it |
| MarkedBlocks.MergedMarkers | extensions/writeandexecute.py:134-142 | after an update the marker sits where the old block opened (or after the old end), followed by the content, and, unless the old block had a single marker, its closing marker two lines on |
| MarkedBlocks.MergedMarkersAppended | extensions/writeandexecute.py:141-142 | with no marker the update appends, and the new file has its two markers around the content at the end |
| MarkedBlocks.MergedMarkersReplaced | extensions/writeandexecute.py:122-139 | with one or two markers the lines before the block are kept, the canonical marker and content stand where the block opened, and the closing marker (if any) follows two lines on |
| MarkedBlocks.MergeIdempotent | extensions/writeandexecute.py:114-142 | running the update again with the same identifier and content changes nothing |
| MarkedBlocks.BlockRoundTrip | extensions/writeandexecute.py:134-142 | after an update that leaves a closed block, that block reads back as exactly the new content |
| MarkedBlocks.ReadBlockPrefix | extensions/writeandexecute.py:136-139 | lines after a complete block do not change what it reads |
| MarkedBlocks.ReadBlockSuffix | extensions/writeandexecute.py:136-139 | marker-free lines before a block do not change what it reads |
| MarkedBlocks.OtherBlockUntouched | extensions/writeandexecute.py:136-139 | updating one identifier leaves the block of any other identifier reading the same, when the two blocks do not overlap |
| MarkedBlocks.OtherBlockBefore | extensions/writeandexecute.py:136-139 | a block that closes before the updated block opens reads the same afterwards |
| MarkedBlocks.OtherBlockAfter | extensions/writeandexecute.py:136-139 | a block of another marker that opens after the updated block closes reads the same afterwards |
| WriteAndExecute.Message | extensions/writeandexecute.py:84-90 | the usage texts; the two missing-argument errors, and only they, start with `Missing` |
| WriteAndExecute.MessageIdentifiesError | extensions/writeandexecute.py:84-90 | distinct usage errors have distinct texts |
| WriteAndExecute.CheckArguments | extensions/writeandexecute.py:82-91 | each usage error arises exactly when its guard is the first to fail (no cell; missing or empty `-i`; no file name), and a passing call carries the cell, identifier, file name and `-d` flag |
| WriteAndExecute.PyPath | extensions/writeandexecute.py:104 | the target ends in `.py`, its stem is a prefix of the given name, and a name whose last component has no dot just gains `.py` |
| WriteAndExecute.PyPathReplacesExtension | extensions/writeandexecute.py:104 | `stem.e` is written to `stem.py`, provided the stem's last component has a non-dot character and `e` holds no `.` and no `/` (otherwise, e.g. `dir/` + `.txt` goes to `dir/.txt.py`) |
| WriteAndExecute.PyPathIdempotent | extensions/writeandexecute.py:104 | naming the `.py` target again selects the same file, provided the last component of the split-off stem has a non-dot character (otherwise, e.g. `dir/` goes to `dir/.py` but `dir/.py` goes to `dir/.py.py`) |
| WriteAndExecute.Save | extensions/writeandexecute.py:103-142 | a save writes only the `.py` target, and it fails only on an existing target with a third marker |
| WriteAndExecute.SaveToFile | extensions/writeandexecute.py:103-142 | the imperative save computes `Save` |
| WriteAndExecute.SaveFails | extensions/writeandexecute.py:121-126 | the save fails at line `n` if and only if the target exists and line `n` is a third marker |
| WriteAndExecute.SaveRoundTrip | extensions/writeandexecute.py:107-142 | after a save that leaves a closed block, the identifier's block in the target reads back as the content |
| WriteAndExecute.SaveIdempotent | extensions/writeandexecute.py:103-142 | saving the same cell again leaves the file system unchanged |
| WriteAndExecute.SaveAsWritten | extensions/writeandexecute.py:144 | as written, every save that gets past the marker scan fails on the undefined name `unicode`, and a scan error comes back unchanged |
| WriteAndExecute.SaveAsWrittenFailsOnNewFile | extensions/writeandexecute.py:107-144 | a save that creates a new file succeeds as intended and fails as written |
| WriteAndExecute.WriteAndExecute | extensions/writeandexecute.py:82-93 | a usage error is returned with its text before any file work; otherwise the result is the save of the transformed cell under the identifier and file name |

## Left out

- File I/O: reading, writing and `ensure_dir` (creating parent directories) are left out. The file system is a map from path to lines, and "is a file" means "is a key". A directory at the target path is not modelled.
- Text framing: joining the output lines with `"\n"` and splitting the written text back into lines are left out. Items that contain line breaks (the header, the blank separators, multi-line content) come back as several lines on the next read. Idempotence and read-back are stated on the line sequence that `_save_to_file` builds. On disk, each save drops one trailing newline, because the join at line 144 adds none after the last item: after an append the file text ends `…M\n\n`, the next save leaves `…M\n`, the one after `…M`. So on the real file `SaveIdempotent` holds only once the text no longer ends in a newline.
- The exception text: for a third marker, the model keeps the path and line number but not the message string.
- Python 2 handling of `unicode` / `py3compat` (lines 149-151) is left out.
- `parse_options`: the model starts from its result (the options map and the argument string).
- `transform_cell` cannot be seen here, so it is a function parameter.
- `run_cell` and `get_ipython` are not modelled, and neither are the debug prints or `load_ipython_extension`.
- `extensions/namespaces.py` and `extensions/reprrequests.py` are not part of this model.
- PyLib.SplitExtRoot: follows POSIX `splitext` only ('/' as the separator, no alternate separator, no drive letters).
- MarkedBlocks.OtherBlockUntouched: proved only when the two blocks do not overlap. If the other identifier's markers fall inside the updated block, they are dropped along with it.
- MarkedBlocks.BlockRoundTrip: excludes the unterminated case. There the output ends after the content with no closing marker, so the block has nothing to read.

## Findings

| source | as written | input that shows it | evidently intended | confidence | as-written member | corrected member |
|---|---|---|---|---|---|---|
| extensions/writeandexecute.py:144 | the new lines are joined with `unicode(u'\n'.join(new_content))`; the module uses f-strings and so runs only on Python 3, where `unicode` is undefined | any save that reaches the write, e.g. the cell `x = 1` with `-i setup` and file name `cells` into a directory without `cells.py` | write `'\n'.join(new_content)` to the `.py` target | high, not executed | WriteAndExecute.SaveAsWritten | WriteAndExecute.Save |
