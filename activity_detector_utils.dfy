/**
 * The helpers that load gesture recordings for the activity detector: deriving a user ID
 * from a recording's file name and stamping it onto the recording's table
 * (`append_uid_column`), and assembling all recordings of a folder into one table with
 * feature-named columns (`sframe_from_folder`). Globbing the folder and parsing the CSV
 * files are done by the caller: the loader receives the matched files with their tables.
 */
module ActivityDetectorUtils {
  import opened Wrappers
  import opened Strings
  import opened Paths
  import opened Tables

  /** The column that carries the user ID. */
  const UserIdColumn := "userId"

  /**
   * The user ID encoded in a recording's file name: the text before its first '-', when
   * there is a dash and it is not the first character.
   */
  function UserIdOf(filename: string): (r: Option<string>)
    ensures r.Some? <==> '-' in filename && filename[0] != '-'
    ensures r.Some? ==> r.value != "" && '-' !in r.value && r.value + "-" <= filename
  {
    var firstDash := Find(filename, '-');
    if firstDash > 0 then Some(filename[..firstDash]) else None
  }

  /** The user ID is exactly the dash-free, non-empty prefix in front of the first dash. */
  lemma UserIdOfPrefix(uid: string, rest: string)
    requires uid != "" && '-' !in uid
    ensures UserIdOf(uid + "-" + rest) == Some(uid)
  {
    var filename := uid + "-" + rest;
    FindAfterPrefix(uid, '-', rest);
    assert filename[..|uid|] == uid;
  }

  /** The documented example: "/path/to/some-file.csv" belongs to user "some". */
  lemma UserIdOfExample()
    ensures UserIdOf(Basename("/path/to/some-file.csv")) == Some("some")
  {
    var name := "some-file.csv";
    assert IsName(name) && '/' !in name;
    assert "/path/to/some-file.csv" == "/path/to" + "/" + name;
    BasenameOfJoin("/path/to", name);
    assert name == "some" + "-" + "file.csv";
    UserIdOfPrefix("some", "file.csv");
  }

  /** Only the file name is consulted: dashes (or anything else) in the directories do not matter. */
  lemma UserIdIgnoresDirectories(dir: string, name: string)
    requires IsName(name) && '/' !in name
    ensures UserIdOf(Basename(dir + "/" + name)) == UserIdOf(Basename(name)) == UserIdOf(name)
  {
    BasenameOfJoin(dir, name);
    BasenameOfName(name);
  }

  /** The table `append_uid_column(t, path)` leaves behind. */
  function Stamp(path: string, t: Table): (r: Table)
    requires WellFormed(t)
    ensures WellFormed(r)
  {
    match UserIdOf(Basename(path))
    case None => t
    case Some(uid) => Assign(t, UserIdColumn, Str(uid))
  }

  /** A path whose file name carries no user ID leaves the table as it was. */
  lemma StampWithoutUserId(path: string, t: Table)
    requires WellFormed(t) && UserIdOf(Basename(path)).None?
    ensures Stamp(path, t) == t
  {
  }

  /**
   * A path whose file name carries user ID `uid` adds (or overwrites) the `userId` column:
   * every row gets `uid`, the row count and every other column's values stay as they were.
   */
  lemma StampWithUserId(path: string, t: Table, uid: string)
    requires WellFormed(t) && UserIdOf(Basename(path)) == Some(uid)
    ensures uid != "" && '-' !in uid
    ensures ColumnSet(Stamp(path, t)) == ColumnSet(t) + {UserIdColumn}
    ensures |Stamp(path, t).rows| == |t.rows|
    ensures forall i :: 0 <= i < |t.rows| ==> Stamp(path, t).rows[i][UserIdColumn] == Str(uid)
    ensures forall i, k :: 0 <= i < |t.rows| && k in t.rows[i] && k != UserIdColumn ==>
              Stamp(path, t).rows[i][k] == t.rows[i][k]
  {
  }

  /**
   * `append_uid_column(sframe, from_path)`: stamps the user ID of `from_path` onto every row
   * of `sframe`, in place, and returns that same object.
   */
  method AppendUidColumn(sframe: Frame, fromPath: string) returns (r: Frame)
    requires sframe.Valid()
    modifies sframe
    ensures r == sframe && sframe.Valid()
    ensures sframe.Value() == Stamp(fromPath, old(sframe.Value()))
    ensures UserIdOf(Basename(fromPath)).None? ==> sframe.Value() == old(sframe.Value())
    ensures UserIdOf(Basename(fromPath)).Some? ==>
              && |sframe.rows| == |old(sframe.rows)|
              && forall i :: 0 <= i < |sframe.rows| ==>
                   sframe.rows[i][UserIdColumn] == Str(UserIdOf(Basename(fromPath)).value)
  {
    var filename := Basename(fromPath);
    var firstDash := Find(filename, '-');
    if firstDash > 0 {
      var uid := filename[..firstDash];
      sframe.AssignColumn(UserIdColumn, Str(uid));
    }
    r := sframe;
  }

  /** The new names of the positional columns `X1`..`X14` that `read_csv(header=False)` produces. */
  const FeatureNames: map<string, string> := map[
    "X1" := "sessionId", "X2" := "activity",
    "X3" := "roll", "X4" := "pitch", "X5" := "yaw",
    "X6" := "rotX", "X7" := "rotY", "X8" := "rotZ",
    "X9" := "gravX", "X10" := "gravY", "X11" := "gravZ",
    "X12" := "accelX", "X13" := "accelY", "X14" := "accelZ"]

  /** The rename table renames exactly the positional columns X1..X14. */
  lemma FeatureNamesKeys()
    ensures FeatureNames.Keys == {"X1", "X2", "X3", "X4", "X5", "X6", "X7", "X8", "X9", "X10", "X11", "X12", "X13", "X14"}
  {
  }

  /** No two positional columns get the same feature name. */
  lemma FeatureNamesInjective()
    ensures forall a, b :: a in FeatureNames && b in FeatureNames && FeatureNames[a] == FeatureNames[b] ==> a == b
  {
  }

  /** `userId` is neither renamed nor a rename target. */
  lemma FeatureNamesKeepUserId()
    ensures UserIdColumn !in FeatureNames && UserIdColumn !in FeatureNames.Values
  {
  }

  /**
   * No column is renamed onto a name that is itself renamed, so renaming all columns at
   * once and one key at a time agree.
   */
  lemma FeatureNamesNoChains()
    ensures forall a :: a in FeatureNames ==> FeatureNames[a] !in FeatureNames
  {
  }

  /**
   * Renaming with the fixed table succeeds on any table that has all of `X1`..`X14` and
   * no column already carrying one of the feature names.
   */
  lemma CanRenameFeatures(t: Table)
    requires WellFormed(t)
    requires forall k :: k in FeatureNames ==> k in t.columns
    requires forall k :: k in FeatureNames ==> FeatureNames[k] !in t.columns
    ensures CanRename(t, FeatureNames)
  {
    FeatureNamesInjective();
    var renamed := NewNames(FeatureNames, t.columns);
    forall i, j | 0 <= i < j < |renamed| ensures renamed[i] != renamed[j] {
      var a, b := t.columns[i], t.columns[j];
      assert a != b;
      if a in FeatureNames && b !in FeatureNames {
        assert renamed[j] == b && renamed[i] == FeatureNames[a];
      } else if a !in FeatureNames && b in FeatureNames {
        assert renamed[i] == a && renamed[j] == FeatureNames[b];
      }
    }
  }

  /** A matched `.csv` file: its path and the table `read_csv(path, header=False)` gives. */
  datatype CsvFile = CsvFile(path: string, table: Table)

  /** Why `sframe_from_folder` raises. */
  datatype LoadError =
    | ColumnMismatch  // `append` found two files whose stamped tables have different columns
    | RenameFailed    // the combined table lacks one of X1..X14, or a new name clashes

  predicate AllWellFormed(tables: seq<Table>)
  {
    forall i :: 0 <= i < |tables| ==> WellFormed(tables[i])
  }

  /** Each matched file's table after `append_uid_column(table, path)`, in list order. */
  function StampAll(files: seq<CsvFile>): (r: seq<Table>)
    requires forall i :: 0 <= i < |files| ==> WellFormed(files[i].table)
    ensures |r| == |files| && AllWellFormed(r)
  {
    seq(|files|, i requires 0 <= i < |files| => Stamp(files[i].path, files[i].table))
  }

  /** The rows of the tables, one table after the other. */
  function ConcatRows(tables: seq<Table>): seq<Row>
  {
    if tables == [] then [] else ConcatRows(tables[..|tables| - 1]) + tables[|tables| - 1].rows
  }

  /** The first table appended with each later one in turn, or `None` where an `append` raises. */
  function AppendAll(tables: seq<Table>): (r: Option<Table>)
    requires |tables| > 0
    ensures r.Some? && AllWellFormed(tables) ==> WellFormed(r.value)
    decreases |tables|
  {
    if |tables| == 1 then Some(tables[0])
    else
      match AppendAll(tables[..|tables| - 1])
      case None => None
      case Some(acc) => AppendRows(acc, tables[|tables| - 1])
  }

  /** Every table has the same column names as the first one. */
  predicate SameColumns(tables: seq<Table>)
    requires |tables| > 0
  {
    forall i :: 0 <= i < |tables| ==> ColumnSet(tables[i]) == ColumnSet(tables[0])
  }

  /**
   * What `sframe_from_folder` returns for the matched files when it renames columns with
   * `renames` (always `FeatureNames`): `None`, a table, or the error it raises.
   */
  function Load(files: seq<CsvFile>, renames: map<string, string>): (r: Result<Option<Table>, LoadError>)
    requires forall i :: 0 <= i < |files| ==> WellFormed(files[i].table)
    ensures r == Ok(None) <==> files == []
    ensures r.Ok? && r.value.Some? ==> WellFormed(r.value.value)
  {
    if files == [] then Ok(None)
    else
      match AppendAll(StampAll(files))
      case None => Err(ColumnMismatch)
      case Some(t) =>
        match RenameColumns(t, renames)
        case None => Err(RenameFailed)
        case Some(renamed) => Ok(Some(renamed))
  }

  /** The appended table keeps the first table's column order and holds every table's rows in order. */
  lemma {:induction false} AppendAllContents(tables: seq<Table>)
    requires |tables| > 0 && AppendAll(tables).Some?
    ensures AppendAll(tables).value.columns == tables[0].columns
    ensures AppendAll(tables).value.rows == ConcatRows(tables)
    decreases |tables|
  {
    var init := tables[..|tables| - 1];
    if |tables| == 1 {
      assert init == [];
    } else {
      AppendAllContents(init);
      assert init[0] == tables[0];
    }
  }

  /** `SameColumns` of a list is `SameColumns` of all but its last table, plus that table's check. */
  lemma SameColumnsSnoc(tables: seq<Table>)
    requires |tables| > 1
    ensures SameColumns(tables) <==>
              SameColumns(tables[..|tables| - 1]) && ColumnSet(tables[|tables| - 1]) == ColumnSet(tables[0])
  {
    var init := tables[..|tables| - 1];
    assert forall i :: 0 <= i < |init| ==> init[i] == tables[i];
  }

  /** Appending all succeeds exactly when every table has the first one's column names. */
  lemma {:induction false} AppendAllSucceedsIff(tables: seq<Table>)
    requires |tables| > 0
    ensures AppendAll(tables).Some? <==> SameColumns(tables)
    decreases |tables|
  {
    if |tables| > 1 {
      var init := tables[..|tables| - 1];
      AppendAllSucceedsIff(init);
      SameColumnsSnoc(tables);
      if AppendAll(init).Some? {
        AppendAllContents(init);
        assert init[0] == tables[0];
      }
    }
  }

  /** Appending one more table to the prefix `tables[..n]`. */
  lemma AppendAllStep(tables: seq<Table>, n: nat)
    requires 0 < n < |tables|
    ensures AppendAll(tables[..n + 1]) ==
              match AppendAll(tables[..n])
              case None => None
              case Some(acc) => AppendRows(acc, tables[n])
  {
    assert tables[..n + 1][..n] == tables[..n];
  }

  /** Once appending has failed for a prefix of the tables, it fails for the whole list. */
  lemma {:induction false} AppendAllStaysFailed(tables: seq<Table>, n: nat)
    requires 0 < n <= |tables|
    requires AppendAll(tables[..n]).None?
    ensures AppendAll(tables).None?
    decreases |tables| - n
  {
    if n < |tables| {
      assert tables[..n + 1][..n] == tables[..n];
      AppendAllStaysFailed(tables, n + 1);
    } else {
      assert tables[..n] == tables;
    }
  }

  /**
   * Loading fails with `ColumnMismatch` exactly when some file's stamped table has other
   * column names than the first file's (for one, a file without a user ID among files with one).
   */
  lemma LoadMismatchIff(files: seq<CsvFile>, renames: map<string, string>)
    requires forall i :: 0 <= i < |files| ==> WellFormed(files[i].table)
    requires files != []
    ensures Load(files, renames) == Err(ColumnMismatch) <==> !SameColumns(StampAll(files))
  {
    AppendAllSucceedsIff(StampAll(files));
  }

  /**
   * A folder mixing a file whose name carries a user ID with one whose name does not (say
   * "alice-1.csv" and "-2.csv"), over tables without a `userId` column, makes `append` raise.
   */
  lemma MixedUserIdsRaise(p: string, q: string, t: Table, u: Table, renames: map<string, string>)
    requires WellFormed(t) && WellFormed(u) && UserIdColumn !in u.columns
    requires UserIdOf(Basename(p)).Some? && UserIdOf(Basename(q)).None?
    ensures Load([CsvFile(p, t), CsvFile(q, u)], renames) == Err(ColumnMismatch)
  {
    var files := [CsvFile(p, t), CsvFile(q, u)];
    var stamped := StampAll(files);
    StampWithUserId(p, t, UserIdOf(Basename(p)).value);
    assert UserIdColumn in ColumnSet(stamped[0]);
    assert UserIdColumn !in ColumnSet(stamped[1]);
    LoadMismatchIff(files, renames);
  }

  /**
   * When loading succeeds, the result has one row per stamped input row, in list order, and
   * each row holds that input row's values under the renamed column names.
   */
  lemma LoadRows(files: seq<CsvFile>, renames: map<string, string>)
    requires forall i :: 0 <= i < |files| ==> WellFormed(files[i].table)
    requires Load(files, renames).Ok? && Load(files, renames).value.Some?
    ensures |Load(files, renames).value.value.rows| == |ConcatRows(StampAll(files))|
    ensures forall i, k :: 0 <= i < |ConcatRows(StampAll(files))| && k in ConcatRows(StampAll(files))[i] ==>
              && RenamedName(renames, k) in Load(files, renames).value.value.rows[i]
              && Load(files, renames).value.value.rows[i][RenamedName(renames, k)] == ConcatRows(StampAll(files))[i][k]
  {
    var combined := AppendAll(StampAll(files)).value;
    AppendAllContents(StampAll(files));
    var renamed := RenameColumns(combined, renames).value;
    assert Load(files, renames) == Ok(Some(renamed));
  }

  /** The outcome of `sframe_from_folder`. */
  datatype Outcome = NoCsvFiles | Loaded(sframe: Frame) | Raised(error: LoadError)

  /** `append_uid_column(tc.SFrame.read_csv(f, header=False), f)` for one matched file. */
  method ReadStamped(f: CsvFile) returns (r: Frame)
    requires WellFormed(f.table)
    ensures fresh(r) && r.Valid() && r.Value() == Stamp(f.path, f.table)
  {
    var sframe := new Frame.FromTable(f.table);
    r := AppendUidColumn(sframe, f.path);
  }

  /** The start of `sframe_from_folder`: the first file's stamped frame, holding the first file only. */
  method ReadFirstFile(trainFiles: seq<CsvFile>) returns (sf: Frame)
    requires 0 < |trainFiles|
    requires forall j :: 0 <= j < |trainFiles| ==> WellFormed(trainFiles[j].table)
    ensures fresh(sf) && sf.Valid() && AppendAll(StampAll(trainFiles)[..1]) == Some(sf.Value())
  {
    sf := ReadStamped(trainFiles[0]);
    assert StampAll(trainFiles)[..1] == [sf.Value()];
  }

  /**
   * One turn of the loop of `sframe_from_folder`: `sf.append(...)` of file `i`'s stamped
   * frame, where `sf` holds the first `i` files. `None` where the `append` raises.
   */
  method AppendFile(sf: Frame, trainFiles: seq<CsvFile>, i: nat) returns (r: Option<Frame>)
    requires 0 < i < |trainFiles|
    requires forall j :: 0 <= j < |trainFiles| ==> WellFormed(trainFiles[j].table)
    requires sf.Valid() && AppendAll(StampAll(trainFiles)[..i]) == Some(sf.Value())
    ensures r.None? <==> AppendAll(StampAll(trainFiles)[..i + 1]).None?
    ensures r.Some? ==> fresh(r.value) && r.value.Valid() && AppendAll(StampAll(trainFiles)[..i + 1]) == Some(r.value.Value())
  {
    var next := ReadStamped(trainFiles[i]);
    assert next.Value() == StampAll(trainFiles)[i];
    AppendAllStep(StampAll(trainFiles), i);
    r := sf.Append(next);
  }

  /**
   * The loop of `sframe_from_folder`: reads and stamps the first file, then appends each
   * later file's stamped frame in turn. `None` where an `append` raises.
   */
  method AppendStampedFiles(trainFiles: seq<CsvFile>) returns (r: Option<Frame>)
    requires |trainFiles| > 0
    requires forall i :: 0 <= i < |trainFiles| ==> WellFormed(trainFiles[i].table)
    ensures r.None? <==> AppendAll(StampAll(trainFiles)).None?
    ensures r.Some? ==> fresh(r.value) && r.value.Valid() && AppendAll(StampAll(trainFiles)) == Some(r.value.Value())
  {
    ghost var stamped := StampAll(trainFiles);
    var sf := ReadFirstFile(trainFiles);
    var i := 1;
    while i < |trainFiles|
      invariant 1 <= i <= |trainFiles|
      invariant fresh(sf) && sf.Valid()
      invariant AppendAll(stamped[..i]) == Some(sf.Value())
    {
      var appended := AppendFile(sf, trainFiles, i);
      if appended.None? {
        AppendAllStaysFailed(stamped, i + 1);
        return None;
      }
      sf := appended.value;
      i := i + 1;
    }
    assert stamped[..i] == stamped;
    r := Some(sf);
  }

  /**
   * `sframe_from_folder` on the files its glob matched: `None` when there are none; otherwise
   * the appended uid-stamped frames with X1..X14 renamed in place to the feature names.
   */
  method SFrameFromFolder(trainFiles: seq<CsvFile>) returns (r: Outcome)
    requires forall i :: 0 <= i < |trainFiles| ==> WellFormed(trainFiles[i].table)
    ensures r.NoCsvFiles? <==> Load(trainFiles, FeatureNames) == Ok(None)
    ensures r.Raised? <==> Load(trainFiles, FeatureNames).Err?
    ensures r.Raised? ==> r.error == Load(trainFiles, FeatureNames).error
    ensures r.Loaded? ==> fresh(r.sframe) && r.sframe.Valid() && Load(trainFiles, FeatureNames) == Ok(Some(r.sframe.Value()))
  {
    if |trainFiles| == 0 {
      return NoCsvFiles;
    }
    var appended := AppendStampedFiles(trainFiles);
    if appended.None? {
      return Raised(ColumnMismatch);
    }
    var sf := appended.value;
    var ok := sf.Rename(FeatureNames);
    if !ok {
      return Raised(RenameFailed);
    }
    r := Loaded(sf);
  }
}
