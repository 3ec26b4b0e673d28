/** The `%%writeandexecute` cell magic: the argument guards, the `.py`
    target path and the file update, over a file system modelled as a map
    from path to the line list the updater builds for it (README, Left out,
    says what that leaves aside). */
module WriteAndExecute {
  import opened Wrappers
  import opened PyLib
  import opened MarkedBlocks

  /** The usage errors the magic raises before touching any file. */
  datatype UsageError = NothingToSave | MissingIdentifier | MissingFilename

  /** The text shown for each usage error (the misspelling is the magic's):
      the two missing-argument errors, and only they, start with `Missing`. */
  function Message(e: UsageError): (s: string)
    ensures e != NothingToSave <==> |s| >= 7 && s[..7] == "Missing"
  {
    match e
    case NothingToSave =>
      var s := "Nothing to save!";
      assert s[1] != "Missing"[1];
      s
    case MissingIdentifier =>
      var s := "Missing" + " indentifier: include \"-i=<indentifier>\"";
      assert s[..7] == "Missing";
      s
    case MissingFilename =>
      var s := "Missing filename";
      assert s[..7] == "Missing";
      s
  }

  /** Each usage text names one error only, so the message tells which
      guard failed. */
  lemma MessageIdentifiesError(e1: UsageError, e2: UsageError)
    requires Message(e1) == Message(e2)
    ensures e1 == e2
  {
  }

  /** Why a call of the magic failed: a usage error with its text, a third marker line of
      the identifier at line `lineno` (counted from 1) of the file, or a
      name the interpreter does not define. */
  datatype Failure =
    | Usage(message: string)
    | DuplicateMarker(path: string, lineno: nat)
    | UndefinedName(name: string)

  /** A call whose arguments passed the guards. */
  datatype Request = Request(cell: string, identifier: string, filename: string, debug: bool)

  /** The guards on the parsed arguments, in the magic's order: the cell
      body, then a non-empty `-i` option, then a file name. */
  function CheckArguments(cell: Option<string>, opts: map<char, string>, args: string): (r: Result<Request, UsageError>)
    ensures r == Err(NothingToSave) <==> cell.None?
    ensures r == Err(MissingIdentifier) <==> cell.Some? && ('i' !in opts || opts['i'] == "")
    ensures r == Err(MissingFilename) <==> cell.Some? && 'i' in opts && opts['i'] != "" && args == ""
    ensures r.Ok? <==> cell.Some? && 'i' in opts && opts['i'] != "" && args != ""
    ensures r.Ok? ==> r.value.cell == cell.value && r.value.identifier == opts['i']
                      && r.value.filename == args && (r.value.debug <==> 'd' in opts)
  {
    if cell.None? then Err(NothingToSave)
    else if 'i' !in opts || opts['i'] == "" then Err(MissingIdentifier)
    else if args == "" then Err(MissingFilename)
    else Ok(Request(cell.value, opts['i'], args, 'd' in opts))
  }

  /** The file actually written: `path` with its extension, if any,
      replaced by `.py`. */
  function PyPath(path: string): (pp: string)
    ensures |pp| >= 3 && pp[|pp| - 3..] == ".py"
    ensures |pp| - 3 <= |path| && pp[..|pp| - 3] == path[..|pp| - 3]
    ensures (forall k :: RFind(path, '/') < k < |path| ==> path[k] != '.') ==> pp == path + ".py"
  {
    SplitExtRootSpec(path);
    SplitExtRoot(path) + ".py"
  }

  /** A name whose last component has a stem and an extension is written to
      the stem with `.py`, whatever the extension was. */
  lemma PyPathReplacesExtension(stem: string, e: string)
    requires exists k :: RFind(stem, '/') < k < |stem| && stem[k] != '.'
    requires forall i :: 0 <= i < |e| ==> e[i] != '/' && e[i] != '.'
    ensures PyPath(stem + "." + e) == stem + ".py"
  {
    var k :| RFind(stem, '/') < k < |stem| && stem[k] != '.';
    SplitExtRootOfExtension(stem, e, k);
  }

  /** Naming the `.py` file itself again selects the same file. */
  lemma PyPathIdempotent(path: string)
    requires var root := SplitExtRoot(path);
             exists k :: RFind(root, '/') < k < |root| && root[k] != '.'
    ensures PyPath(PyPath(path)) == PyPath(path)
  {
    var root := SplitExtRoot(path);
    PyPathReplacesExtension(root, "py");
    assert root + "." + "py" == PyPath(path);
  }

  /** What saving `content` under `identifier` does to the file system: a
      missing target file is created, an existing one is merged, and a
      third marker fails without writing anything. Only the `.py` target
      is written. */
  function Save(files: map<string, seq<string>>, path: string, identifier: string, content: string)
    : (r: Result<map<string, seq<string>>, Failure>)
    ensures r.Ok? ==> r.value.Keys == files.Keys + {PyPath(path)}
                      && forall p :: p in files && p != PyPath(path) ==> r.value[p] == files[p]
    ensures r.Err? ==> PyPath(path) in files && r.error.DuplicateMarker? && r.error.path == PyPath(path)
  {
    var pp := PyPath(path);
    var m := Marker(identifier);
    if pp !in files then Ok(files[pp := NewFile(m, content)])
    else match Merge(files[pp], m, content)
      case Ok(out) => Ok(files[pp := out])
      case Err(n) => Err(DuplicateMarker(pp, n))
  }

  /** The save as the code stands: once the new lines are built, joining
      them goes through `unicode`, a name Python 3 does not define, so the
      save ends in a `NameError` and nothing is written. */
  function SaveAsWritten(files: map<string, seq<string>>, path: string, identifier: string, content: string)
    : (r: Result<map<string, seq<string>>, Failure>)
    ensures r.Err?
    ensures Save(files, path, identifier, content).Ok? ==> r == Err(UndefinedName("unicode"))
    ensures Save(files, path, identifier, content).Err? ==> r == Save(files, path, identifier, content)
  {
    match Save(files, path, identifier, content)
    case Ok(_) => Err(UndefinedName("unicode"))
    case Err(e) => Err(e)
  }

  /** Saving a cell into a directory without the target file creates it
      when the lines are joined as intended, and fails as written. */
  lemma SaveAsWrittenFailsOnNewFile()
    ensures Save(map[], "cells", "setup", "x = 1").Ok?
    ensures SaveAsWritten(map[], "cells", "setup", "x = 1") == Err(UndefinedName("unicode"))
  {
  }

  /** The file update, one line at a time over an existing file. */
  method SaveToFile(files: map<string, seq<string>>, path: string, identifier: string, content: string)
    returns (r: Result<map<string, seq<string>>, Failure>)
    ensures r == Save(files, path, identifier, content)
  {
    var pp := PyPath(path);
    var m := Marker(identifier);
    if pp !in files {
      return Ok(files[pp := NewFile(m, content)]);
    }
    var merged := MergeLines(files[pp], m, content);
    match merged {
      case Ok(out) => r := Ok(files[pp := out]);
      case Err(n) => r := Err(DuplicateMarker(pp, n));
    }
  }

  /** A save fails with line `n` exactly when the target exists and its
      line `n` is a third marker line of the identifier. */
  lemma SaveFails(files: map<string, seq<string>>, path: string, identifier: string, content: string, n: nat)
    ensures var pp := PyPath(path);
            var m := Marker(identifier);
            Save(files, path, identifier, content) == Err(DuplicateMarker(pp, n))
            <==> pp in files && 1 <= n <= |files[pp]| && IsMarkerLine(files[pp][n - 1], m)
                 && |Markers(files[pp][..n - 1], m)| == 2
  {
    var pp := PyPath(path);
    if pp in files {
      ThirdMarkerError(files[pp], Marker(identifier), content, n);
    }
  }

  /** After a save that leaves a closed block, the identifier's block in the
      target reads back as exactly the new content. */
  lemma SaveRoundTrip(files: map<string, seq<string>>, path: string, identifier: string, content: string)
    requires !IsMarkerLine(content, Marker(identifier))
    requires PyPath(path) in files ==> |Markers(files[PyPath(path)], Marker(identifier))| != 1
    ensures var r := Save(files, path, identifier, content);
            r.Ok? ==> ReadBlock(r.value[PyPath(path)], Marker(identifier)) == Some([content])
  {
    var pp := PyPath(path);
    var m := Marker(identifier);
    MarkerIsStripped(identifier);
    if pp !in files {
      NewFileBlock(identifier, content);
    } else if Merge(files[pp], m, content).Ok? {
      BlockRoundTrip(files[pp], m, content);
    }
  }

  /** Saving the same cell again under the same identifier and file name
      changes nothing. */
  lemma SaveIdempotent(files: map<string, seq<string>>, path: string, identifier: string, content: string)
    requires !IsMarkerLine(content, Marker(identifier))
    requires Save(files, path, identifier, content).Ok?
    ensures var r := Save(files, path, identifier, content);
            Save(r.value, path, identifier, content) == r
  {
    var pp := PyPath(path);
    var m := Marker(identifier);
    var after := Save(files, path, identifier, content).value;
    MarkerIsStripped(identifier);
    if pp !in files {
      NewFileStable(identifier, content);
    } else {
      MergeIdempotent(files[pp], m, content);
    }
    assert after[pp := after[pp]] == after;
  }

  /** The whole magic without running the cell: the guards, then the save
      of the transformed cell body. */
  method WriteAndExecute(cell: Option<string>, opts: map<char, string>, args: string,
                         transform: string -> string, files: map<string, seq<string>>)
    returns (r: Result<map<string, seq<string>>, Failure>)
    ensures CheckArguments(cell, opts, args).Err? ==> r == Err(Usage(Message(CheckArguments(cell, opts, args).error)))
    ensures CheckArguments(cell, opts, args).Ok? ==>
              var q := CheckArguments(cell, opts, args).value;
              r == Save(files, q.filename, q.identifier, transform(q.cell))
  {
    var checked := CheckArguments(cell, opts, args);
    if checked.Err? {
      return Err(Usage(Message(checked.error)));
    }
    var q := checked.value;
    r := SaveToFile(files, q.filename, q.identifier, transform(q.cell));
  }
}
