/**
 The dashboard's upload helper: turning an uploaded CSV file's name into a
 display title, and loading every uploaded file into a dictionary keyed by
 that title.
 */
module AppUtils {
  import opened PyString

  // ---------------------------------------------------------------------------
  // process_name
  // ---------------------------------------------------------------------------

  /**
   The text `title()` is applied to: every `.csv` removed, then every `_`
   turned into a space. Neither step brings in a non-ASCII character.
   */
  function Spaced(name: string): (r: string)
    ensures IsAscii(name) ==> IsAscii(r)
  {
    ReplaceKeepsAscii(name, ".csv", "");
    ReplaceKeepsAscii(Replace(name, ".csv", ""), "_", " ");
    Replace(Replace(name, ".csv", ""), "_", " ")
  }

  /** `name.replace(".csv", "").replace("_", " ").title()` for an ASCII file name. */
  function ProcessName(name: string): (r: string)
    requires IsAscii(name)
    ensures IsAscii(r)
  {
    Title(Spaced(name))
  }

  /**
   The display title is the title-cased form of the spaced name: each letter
   upper-case exactly when it starts the title or follows a non-letter, the
   other letters lower-case, every other character as in the spaced name.
   */
  lemma ProcessNameCasing(name: string)
    requires IsAscii(name)
    ensures TitleCased(Spaced(name), ProcessName(name))
  {
    TitleIsTitleCased(Spaced(name));
  }

  /** No underscore survives: each becomes a space, and title-casing keeps non-letters. */
  lemma ProcessNameNoUnderscore(name: string)
    requires IsAscii(name)
    ensures !Contains(ProcessName(name), "_")
  {
    var r := ProcessName(name);
    var t := Spaced(name);
    ProcessNameCasing(name);
    ReplaceCharAt(Replace(name, ".csv", ""), '_', ' ');
    forall i | 0 <= i < |r| ensures r[i] != '_' {
      assert t[i] != '_';
    }
    forall i | 0 <= i && i + 1 <= |r| ensures !OccursAt(r, "_", i) {
      assert r[i..i + 1][0] == r[i];
    }
  }

  /** The result never holds a lower-case `.csv`, even one exposed by the removal. */
  lemma ProcessNameNoCsv(name: string)
    requires IsAscii(name)
    ensures !Contains(ProcessName(name), ".csv")
  {
    ProcessNameCasing(name);
    TitleCasedHasNoCsv(Spaced(name), ProcessName(name));
  }

  /** Each `.csv` removed shortens the name by four; nothing else changes the length. */
  lemma ProcessNameLength(name: string)
    requires IsAscii(name)
    ensures |ProcessName(name)| == |name| - 4 * Count(name, ".csv")
  {
    SpacedLength(name);
  }

  /** Removing each `.csv` takes four characters; turning `_` into a space keeps the length. */
  lemma SpacedLength(name: string)
    ensures |Spaced(name)| == |name| - 4 * Count(name, ".csv")
  {
    var stripped := Replace(name, ".csv", "");
    ReplaceLength(name, ".csv", "");
    ReplaceLength(stripped, "_", " ");
  }

  /** A display title is its own display title. */
  lemma ProcessNameIdempotent(name: string)
    requires IsAscii(name)
    ensures ProcessName(ProcessName(name)) == ProcessName(name)
  {
    var r := ProcessName(name);
    ProcessNameNoCsv(name);
    ProcessNameNoUnderscore(name);
    ReplaceAbsent(r, ".csv", "");
    ReplaceAbsent(r, "_", " ");
    assert Spaced(r) == r;
    TitleIdempotent(Spaced(name));
  }

  // ---------------------------------------------------------------------------
  // load_data
  // ---------------------------------------------------------------------------

  /** A file handed over by the uploader: its name and the bytes sent. */
  datatype UploadedFile = UploadedFile(name: string, content: seq<bv8>)

  /** A parse either yields a value or raises an error. */
  datatype Result<T, E> = Success(value: T) | Failure(error: E)

  predicate AsciiNames(files: seq<UploadedFile>)
  {
    forall i :: 0 <= i < |files| ==> IsAscii(files[i].name)
  }

  /** The display titles of `files`. */
  function Titles(files: seq<UploadedFile>): set<string>
    requires AsciiNames(files)
  {
    set i | 0 <= i < |files| :: ProcessName(files[i].name)
  }

  /** No file after position `i` has the same display title as file `i`. */
  predicate LastOfTitle(files: seq<UploadedFile>, i: nat)
    requires AsciiNames(files) && i < |files|
  {
    forall j :: i < j < |files| ==> ProcessName(files[j].name) != ProcessName(files[i].name)
  }

  /**
   What `load_data` produces from `files` with `readCsv` standing for
   `pd.read_csv`: the dictionary after inserting every file in order, or the
   error of the first file whose parse fails. Files sharing a display title
   share one entry, so there are never more entries than files.
   */
  function Loaded<T, E>(files: seq<UploadedFile>, readCsv: UploadedFile -> Result<T, E>): (r: Result<map<string, T>, E>)
    requires AsciiNames(files)
    ensures r.Success? ==> |r.value| <= |files|
    decreases |files|
  {
    if files == [] then Success(map[])
    else
      var last := files[|files| - 1];
      match Loaded(files[..|files| - 1], readCsv)
      case Failure(e) => Failure(e)
      case Success(names) =>
        match readCsv(last)
        case Failure(e) => Failure(e)
        case Success(table) => Success(names[ProcessName(last.name) := table])
  }

  /** The dictionary's keys are exactly the display titles of the uploaded files. */
  lemma {:induction false} LoadedKeys<T, E>(files: seq<UploadedFile>, readCsv: UploadedFile -> Result<T, E>)
    requires AsciiNames(files) && Loaded(files, readCsv).Success?
    ensures Loaded(files, readCsv).value.Keys == Titles(files)
    decreases |files|
  {
    if files != [] {
      LoadedKeys(files[..|files| - 1], readCsv);
      TitlesSnoc(files);
    }
  }

  /** The titles of a non-empty list are those of all but its last file, plus the last file's. */
  lemma TitlesSnoc(files: seq<UploadedFile>)
    requires AsciiNames(files) && files != []
    ensures Titles(files) == Titles(files[..|files| - 1]) + {ProcessName(files[|files| - 1].name)}
  {
    var n := |files|;
    var pre := files[..n - 1];
    forall k | k in Titles(files) ensures k in Titles(pre) + {ProcessName(files[n - 1].name)} {
      var i :| 0 <= i < n && k == ProcessName(files[i].name);
      if i < n - 1 {
        assert pre[i] == files[i];
      }
    }
    forall k | k in Titles(pre) ensures k in Titles(files) {
      var i :| 0 <= i < n - 1 && k == ProcessName(pre[i].name);
      assert pre[i] == files[i];
    }
  }

  /** The entry for a title holds the parse of the last file with that title. */
  lemma {:induction false} LoadedLastWins<T, E>(files: seq<UploadedFile>, readCsv: UploadedFile -> Result<T, E>, i: nat)
    requires AsciiNames(files) && Loaded(files, readCsv).Success?
    requires i < |files| && LastOfTitle(files, i)
    ensures ProcessName(files[i].name) in Loaded(files, readCsv).value
    ensures readCsv(files[i]) == Success(Loaded(files, readCsv).value[ProcessName(files[i].name)])
    decreases |files|
  {
    var n := |files|;
    if i < n - 1 {
      var pre := files[..n - 1];
      assert pre[i] == files[i];
      assert ProcessName(files[n - 1].name) != ProcessName(files[i].name);
      assert LastOfTitle(pre, i) by {
        forall j | i < j < n - 1 ensures ProcessName(pre[j].name) != ProcessName(pre[i].name) {
          assert pre[j] == files[j];
        }
      }
      LoadedLastWins(pre, readCsv, i);
    }
  }

  /** Loading succeeds exactly when every file parses. */
  lemma {:induction false} LoadedSucceeds<T, E>(files: seq<UploadedFile>, readCsv: UploadedFile -> Result<T, E>)
    requires AsciiNames(files)
    ensures Loaded(files, readCsv).Success? <==> forall i :: 0 <= i < |files| ==> readCsv(files[i]).Success?
    decreases |files|
  {
    if files != [] {
      var n := |files|;
      var pre := files[..n - 1];
      LoadedSucceeds(pre, readCsv);
      if Loaded(files, readCsv).Success? {
        forall i | 0 <= i < n ensures readCsv(files[i]).Success? {
          if i < n - 1 {
            assert pre[i] == files[i];
          }
        }
      } else if Loaded(pre, readCsv).Success? {
        assert !readCsv(files[n - 1]).Success?;
      } else {
        var i :| 0 <= i < n - 1 && !readCsv(pre[i]).Success?;
        assert pre[i] == files[i];
      }
    }
  }

  /** A failed load carries the error of the first file that does not parse. */
  lemma {:induction false} LoadedFirstError<T, E>(files: seq<UploadedFile>, readCsv: UploadedFile -> Result<T, E>)
    requires AsciiNames(files) && Loaded(files, readCsv).Failure?
    ensures exists i :: 0 <= i < |files| && readCsv(files[i]) == Failure(Loaded(files, readCsv).error)
                     && forall j :: 0 <= j < i ==> readCsv(files[j]).Success?
    decreases |files|
  {
    var n := |files|;
    var pre := files[..n - 1];
    assert forall i :: 0 <= i < n - 1 ==> pre[i] == files[i];
    if Loaded(pre, readCsv).Failure? {
      LoadedFirstError(pre, readCsv);
      var i :| 0 <= i < n - 1 && readCsv(pre[i]) == Failure(Loaded(pre, readCsv).error)
               && forall j :: 0 <= j < i ==> readCsv(pre[j]).Success?;
      assert readCsv(files[i]) == Failure(Loaded(files, readCsv).error);
    } else {
      LoadedSucceeds(pre, readCsv);
      assert readCsv(files[n - 1]) == Failure(Loaded(files, readCsv).error);
    }
  }

  /** Once a prefix of the files fails to load, so does the whole list, with the same error. */
  lemma {:induction false} LoadedFailureExtends<T, E>(files: seq<UploadedFile>, readCsv: UploadedFile -> Result<T, E>, k: nat)
    requires AsciiNames(files) && k <= |files|
    requires Loaded(files[..k], readCsv).Failure?
    ensures Loaded(files, readCsv) == Loaded(files[..k], readCsv)
    decreases |files| - k
  {
    if k < |files| {
      var n := |files|;
      var pre := files[..n - 1];
      assert pre[..k] == files[..k];
      LoadedFailureExtends(pre, readCsv, k);
    } else {
      assert files[..k] == files;
    }
  }

  /** Two uploads with the same display title leave one entry, holding the later parse. */
  lemma LoadedTwoSameTitle<T, E>(f1: UploadedFile, f2: UploadedFile, x: T, y: T, readCsv: UploadedFile -> Result<T, E>)
    requires IsAscii(f1.name) && IsAscii(f2.name) && ProcessName(f1.name) == ProcessName(f2.name)
    requires readCsv(f1) == Success(x) && readCsv(f2) == Success(y)
    ensures Loaded([f1, f2], readCsv) == Success(map[ProcessName(f2.name) := y])
  {
    var files := [f1, f2];
    assert files[..1][..0] == [];
    assert files[..1] == [f1];
    assert Loaded(files[..1], readCsv) == Success(map[ProcessName(f1.name) := x]);
    assert map[ProcessName(f1.name) := x][ProcessName(f2.name) := y] == map[ProcessName(f2.name) := y];
  }

  /**
   `load_data(files)`: for each uploaded file in turn, store the parse of the
   file under its display title. A parse error propagates at once.
   */
  method LoadData<T, E>(files: seq<UploadedFile>, readCsv: UploadedFile -> Result<T, E>) returns (r: Result<map<string, T>, E>)
    requires AsciiNames(files)
    ensures r == Loaded(files, readCsv)
    ensures files == [] ==> r == Success(map[])
    ensures r.Success? ==> r.value.Keys == Titles(files)
  {
    var names: map<string, T> := map[];
    var i := 0;
    while i < |files|
      invariant 0 <= i <= |files|
      invariant Loaded(files[..i], readCsv) == Success(names)
    {
      var name := ProcessName(files[i].name);
      var parsed := readCsv(files[i]);
      assert files[..i + 1][..i] == files[..i];
      if parsed.Failure? {
        LoadedFailureExtends(files, readCsv, i + 1);
        return Failure(parsed.error);
      }
      names := names[name := parsed.value];
      i := i + 1;
    }
    assert files[..i] == files;
    r := Success(names);
    LoadedKeys(files, readCsv);
  }
}
