# Activity detector data helpers, modelled in Dafny

This project models the data-loading helpers of the gesture-recognition notebook
(`08-sequence-classification/notebooks/activity_detector_utils.py`):

- `append_uid_column(sframe, from_path)` takes the file name of a recording
  (`Path(from_path).name`), finds its first `-`, and when that dash is not the first
  character stamps the prefix before it, as `userId`, onto every row of the table. It
  changes the table in place and returns the same object.
- `sframe_from_folder(folder)` returns `None` when the folder holds no `.csv` file.
  Otherwise it reads the first file and stamps it, then appends each later file's
  stamped table in turn. Last, it renames the positional columns `X1`..`X14` in place
  to the feature names (`sessionId`, `activity`, `roll`, …, `accelZ`).

Files:

- `wrappers.dfy` (`Wrappers`): `Option` and `Result`.
- `strings.dfy` (`Strings`): `str.find` and `str.rfind` for one character.
- `paths.dfy` (`Paths`): `PurePosixPath(p).name`. The path is split at every `/`,
  empty and `.` components are dropped, and the name is the last component left.
- `tables.dfy` (`Tables`): the parts of a Turi Create SFrame that the helpers use.
  `Table` is the value: named columns in order, and rows mapping each column to a cell.
  `Frame` is the mutable object. Its methods (`AssignColumn`, `Append`, `Rename`) are
  specified by pure functions on `Table`.
- `activity_detector_utils.dfy` (`ActivityDetectorUtils`): the user-ID rule, the
  in-place `AppendUidColumn`, the rename table, and the folder loader. The loader gets
  the matched files, each with its parsed table, instead of globbing and reading them.
  Its loop is proved against the pure specification `Load`.

## Model

| member | source | states |
|---|---|---|
| `Strings.Find` | 08-sequence-classification/notebooks/activity_detector_utils.py:113 | `filename.find('-')`: -1 exactly when there is no dash; otherwise the result is a dash's index and no dash comes before it |
| `Strings.FindAfterPrefix` | 08-sequence-classification/notebooks/activity_detector_utils.py:113 | the first dash of `u + "-" + rest` is at index `len(u)` whenever `u` holds no dash |
| `Strings.FindLast` | 08-sequence-classification/notebooks/activity_detector_utils.py:112 | the last `/` of a path: -1 exactly when there is none; otherwise no `/` follows it |
| `Strings.FindLastBeforeSuffix` | 08-sequence-classification/notebooks/activity_detector_utils.py:112 | the last `/` of `dir + "/" + name` is at index `len(dir)` whenever `name` holds no `/` |
| `Paths.Segments` | 08-sequence-classification/notebooks/activity_detector_utils.py:112 | splitting a path at `/` gives at least one piece, and no piece contains `/` |
| `Paths.JoinSegments` | 08-sequence-classification/notebooks/activity_detector_utils.py:112 | joining the pieces with `/` gives the path back |
| `Paths.SegmentsJoin` | 08-sequence-classification/notebooks/activity_detector_utils.py:112 | splitting a join of slash-free pieces gives the pieces back |
| `Paths.SegmentsOfJoin` | 08-sequence-classification/notebooks/activity_detector_utils.py:112 | the pieces of `dir + "/" + name` are the pieces of `dir` followed by `name` |
| `Paths.LastName` | 08-sequence-classification/notebooks/activity_detector_utils.py:112 | the name is the last piece that is neither empty nor `.`, or `""` when there is no such piece |
| `Paths.Basename` | 08-sequence-classification/notebooks/activity_detector_utils.py:112 | `Path(p).name` contains no `/` and is never `.` |
| `Paths.BasenameOfJoin` | 08-sequence-classification/notebooks/activity_detector_utils.py:112 | whatever the directory part, the name of `dir + "/" + name` is `name` |
| `Paths.BasenameOfName` | 08-sequence-classification/notebooks/activity_detector_utils.py:112 | a bare file name is its own name |
| `Paths.BasenameAfterLastSlash` | 08-sequence-classification/notebooks/activity_detector_utils.py:112 | when a path does not end in `/` or `/.`, its name is the text after its last `/` |
| `Paths.BasenameIgnoresTrailingSlash` | 08-sequence-classification/notebooks/activity_detector_utils.py:112 | a trailing `/` does not change the name |
| `ActivityDetectorUtils.UserIdOf` | 08-sequence-classification/notebooks/activity_detector_utils.py:113-115 | a user ID exists exactly when the name has a dash and does not start with one; it is non-empty, holds no dash, and the name starts with it followed by a dash |
| `ActivityDetectorUtils.UserIdOfPrefix` | 08-sequence-classification/notebooks/activity_detector_utils.py:113-115 | for a non-empty, dash-free `uid`, the user ID of `uid + "-" + rest` is `uid` |
| `ActivityDetectorUtils.UserIdOfExample` | 08-sequence-classification/notebooks/activity_detector_utils.py:105-107 | the documented example: `/path/to/some-file.csv` gives `some` |
| `ActivityDetectorUtils.UserIdIgnoresDirectories` | 08-sequence-classification/notebooks/activity_detector_utils.py:112-113 | only the file name is consulted, so dashes in directory names never affect the user ID |
| `ActivityDetectorUtils.Stamp` | 08-sequence-classification/notebooks/activity_detector_utils.py:111-117 | the table that `append_uid_column` leaves behind is a well-formed table |
| `ActivityDetectorUtils.StampWithoutUserId` | 08-sequence-classification/notebooks/activity_detector_utils.py:114-117 | with no dash, or a dash at index 0, the table comes back unchanged |
| `ActivityDetectorUtils.StampWithUserId` | 08-sequence-classification/notebooks/activity_detector_utils.py:114-116 | the assigned user ID is non-empty and dash-free; `userId` joins the columns; every row gets that same value; the row count and all other columns' values stay as they were |
| `ActivityDetectorUtils.AppendUidColumn` | 08-sequence-classification/notebooks/activity_detector_utils.py:111-117 | stamps the table in place and returns the very object it was given; with no user ID the table is unchanged, otherwise every row's `userId` is the user ID |
| `Tables.Assign` | 08-sequence-classification/notebooks/activity_detector_utils.py:116 | `sf['userId'] = uid`: the column set gains the name; existing columns keep their order; the row count is kept; every row holds the value; other columns keep their values |
| `Tables.Frame.AssignColumn` | 08-sequence-classification/notebooks/activity_detector_utils.py:116 | the in-place scalar assignment leaves the frame holding `Assign` of its old value |
| `Tables.Frame.FromTable` | 08-sequence-classification/notebooks/activity_detector_utils.py:52 | the frame `read_csv` creates holds the parsed table |
| `Tables.AppendRows` | 08-sequence-classification/notebooks/activity_detector_utils.py:54 | `append` succeeds exactly when both tables have the same column names; the result keeps the left column order and holds the left rows followed by the right rows |
| `Tables.Frame.Append` | 08-sequence-classification/notebooks/activity_detector_utils.py:54 | `sf.append(other)` returns a fresh frame holding `AppendRows` of the two, or fails where that fails |
| `Tables.RenameColumns` | 08-sequence-classification/notebooks/activity_detector_utils.py:56-60 | `rename` succeeds exactly when every old name is a column and the new names stay distinct; each column takes its new name at the same position, and every row keeps its values under the new names |
| `Tables.Frame.Rename` | 08-sequence-classification/notebooks/activity_detector_utils.py:60 | renames in place when `RenameColumns` succeeds and leaves the frame alone when it fails |
| `ActivityDetectorUtils.FeatureNamesKeys` | 08-sequence-classification/notebooks/activity_detector_utils.py:56-60 | the rename table renames exactly `X1`..`X14` |
| `ActivityDetectorUtils.FeatureNamesInjective` | 08-sequence-classification/notebooks/activity_detector_utils.py:56-60 | no two positional columns get the same feature name |
| `ActivityDetectorUtils.FeatureNamesKeepUserId` | 08-sequence-classification/notebooks/activity_detector_utils.py:56-60 | `userId` is neither renamed nor a rename target |
| `ActivityDetectorUtils.FeatureNamesNoChains` | 08-sequence-classification/notebooks/activity_detector_utils.py:56-60 | no column is renamed onto a name that is itself renamed |
| `ActivityDetectorUtils.CanRenameFeatures` | 08-sequence-classification/notebooks/activity_detector_utils.py:56-60 | the rename succeeds on any table that has `X1`..`X14` and no column already named after a feature |
| `ActivityDetectorUtils.StampAll` | 08-sequence-classification/notebooks/activity_detector_utils.py:52-54 | one well-formed stamped table per matched file |
| `ActivityDetectorUtils.AppendAll` | 08-sequence-classification/notebooks/activity_detector_utils.py:52-54 | appending well-formed tables one after another yields a well-formed table |
| `ActivityDetectorUtils.AppendAllContents` | 08-sequence-classification/notebooks/activity_detector_utils.py:52-54 | the appended table has the first table's column order and the rows of every table, in list order |
| `ActivityDetectorUtils.AppendAllSucceedsIff` | 08-sequence-classification/notebooks/activity_detector_utils.py:52-54 | appending all the tables succeeds exactly when every table has the first table's column names |
| `ActivityDetectorUtils.AppendAllStaysFailed` | 08-sequence-classification/notebooks/activity_detector_utils.py:53-54 | once an `append` has failed for some prefix of the files, loading all of them fails too |
| `ActivityDetectorUtils.Load` | 08-sequence-classification/notebooks/activity_detector_utils.py:46-61 | the loader returns `None` exactly when no file matched, and any table it returns is well-formed |
| `ActivityDetectorUtils.LoadMismatchIff` | 08-sequence-classification/notebooks/activity_detector_utils.py:52-54 | loading fails at `append` exactly when some stamped table's column names differ from the first file's |
| `ActivityDetectorUtils.MixedUserIdsRaise` | 08-sequence-classification/notebooks/activity_detector_utils.py:52-54 | a file whose name gives a user ID, followed by one whose name does not (over a table without `userId`), makes `append` raise |
| `ActivityDetectorUtils.LoadRows` | 08-sequence-classification/notebooks/activity_detector_utils.py:52-60 | a loaded table has exactly the stamped rows of the files in list order, each holding its values under the renamed columns |
| `ActivityDetectorUtils.ReadStamped` | 08-sequence-classification/notebooks/activity_detector_utils.py:52 | `append_uid_column(read_csv(f), f)` gives a fresh frame holding `f`'s stamped table |
| `ActivityDetectorUtils.ReadFirstFile` | 08-sequence-classification/notebooks/activity_detector_utils.py:52 | the initial `sf` holds the first file's stamped table |
| `ActivityDetectorUtils.AppendFile` | 08-sequence-classification/notebooks/activity_detector_utils.py:54 | one turn of the loop extends the result from the first `i` files to the first `i + 1`, or fails where `append` fails |
| `ActivityDetectorUtils.AppendStampedFiles` | 08-sequence-classification/notebooks/activity_detector_utils.py:52-54 | the loop ends with a fresh frame holding `AppendAll` of every stamped table, or fails exactly when that fails |
| `ActivityDetectorUtils.SFrameFromFolder` | 08-sequence-classification/notebooks/activity_detector_utils.py:46-61 | returns no frame exactly when no file matched, raises exactly when `Load` does (with the same error), and otherwise returns a fresh frame holding `Load`'s table |

## Left out

- `plot_gesture_activity` (lines 69-89): pandas filtering and matplotlib drawing, with a console message. It is plotting over libraries, not logic of the helpers.
- `count_activities` (lines 95-99): a Turi Create group-by, count and sort whose result is printed. It is a thin wrapper over the library with console output only.
- Globbing (line 47): the loader takes the matched files, in the order the glob returned them. That order is filesystem-dependent and is not modelled.
- CSV parsing (`tc.SFrame.read_csv`, lines 52 and 54): each file's parsed table is an input. Type inference, header handling and read errors are not modelled. Floats are modelled as `real`.
- Turi Create itself is not part of this model. The model assumes the SFrame behaviour documented for it. A scalar assignment broadcasts to every row, and an existing column keeps its position. `append` needs the same column names and keeps the left frame's column order. `rename` raises when a key is not a column or when the new names would clash.
- `Tables.AppendRows`: checks only column names. Turi also rejects differing column types and special-cases frames with no columns; types are not modelled.
- `Tables.RenameColumns`: renames all columns at once. Turi renames one key at a time. The two agree unless a new name is also an old name, and the fixed rename table has no such chain (`FeatureNamesNoChains`).
- `Paths.Basename`: models POSIX paths only. Windows separators and drive letters are not modelled.
- The Swift gesture-windowing code of the iOS apps (motion buffering, Core ML calls, UI) is not part of this model.
