/**
 * The part of a Turi Create SFrame that the activity-detector helpers rely on: named
 * columns in order, and rows giving each column a value. `Frame` is the mutable SFrame
 * object; `Table` is its value, and the functions on `Table` specify the SFrame operations
 * the helpers call (scalar column assignment, `append`, `rename`).
 */
module Tables {
  import opened Wrappers

  /** A cell of a CSV-loaded SFrame: an integer, a float or a string. */
  datatype Cell = Int(i: int) | Float(x: real) | Str(s: string)

  /** One row: column name to value. */
  type Row = map<string, Cell>

  datatype Table = Table(columns: seq<string>, rows: seq<Row>)

  predicate Distinct(names: seq<string>)
  {
    forall i, j :: 0 <= i < j < |names| ==> names[i] != names[j]
  }

  function ColumnSet(t: Table): set<string>
  {
    set c | c in t.columns
  }

  /** Column names are distinct and every row holds exactly one value per column. */
  predicate WellFormed(t: Table)
  {
    Distinct(t.columns) && forall i :: 0 <= i < |t.rows| ==> t.rows[i].Keys == ColumnSet(t)
  }

  /**
   * `sf[name] = v` with a scalar `v`: every row gets the value `v` in column `name`.
   * A new column goes last; an existing one keeps its position.
   */
  function Assign(t: Table, name: string, v: Cell): (r: Table)
    requires WellFormed(t)
    ensures WellFormed(r)
    ensures ColumnSet(r) == ColumnSet(t) + {name}
    ensures |r.columns| >= |t.columns| && r.columns[..|t.columns|] == t.columns
    ensures |r.rows| == |t.rows|
    ensures forall i :: 0 <= i < |r.rows| ==> r.rows[i][name] == v
    ensures forall i, k :: 0 <= i < |r.rows| && k in t.rows[i] && k != name ==> r.rows[i][k] == t.rows[i][k]
  {
    var columns := if name in t.columns then t.columns else t.columns + [name];
    assert ColumnSet(Table(columns, [])) == ColumnSet(t) + {name};
    Table(columns, seq(|t.rows|, i requires 0 <= i < |t.rows| => t.rows[i][name := v]))
  }

  /**
   * `t.append(u)`: a new table with the rows of `t` followed by those of `u`, in the
   * column order of `t`. Fails (the SFrame raises) unless both have the same columns.
   */
  function AppendRows(t: Table, u: Table): (r: Option<Table>)
    ensures r.Some? <==> ColumnSet(t) == ColumnSet(u)
    ensures r.Some? ==> r.value.columns == t.columns && r.value.rows == t.rows + u.rows
    ensures r.Some? && WellFormed(t) && WellFormed(u) ==> WellFormed(r.value)
  {
    if ColumnSet(t) == ColumnSet(u) then Some(Table(t.columns, t.rows + u.rows)) else None
  }

  /** The name column `c` has after renaming with `m`. */
  function RenamedName(m: map<string, string>, c: string): string
  {
    if c in m then m[c] else c
  }

  function NewNames(m: map<string, string>, columns: seq<string>): (r: seq<string>)
    ensures |r| == |columns|
    ensures forall j :: 0 <= j < |r| ==> r[j] == RenamedName(m, columns[j])
  {
    seq(|columns|, j requires 0 <= j < |columns| => RenamedName(m, columns[j]))
  }

  /** `rename` succeeds when every old name is a column and the new names clash with nothing. */
  predicate CanRename(t: Table, m: map<string, string>)
  {
    (forall k :: k in m ==> k in t.columns) && Distinct(NewNames(m, t.columns))
  }

  /** `RenamedName(m, _)` does not merge two of `names`. */
  predicate InjectiveOn(m: map<string, string>, names: set<string>)
  {
    forall a, b :: a in names && b in names && RenamedName(m, a) == RenamedName(m, b) ==> a == b
  }

  lemma DistinctRenameIsInjective(t: Table, m: map<string, string>)
    requires Distinct(NewNames(m, t.columns))
    ensures InjectiveOn(m, ColumnSet(t))
  {
    var renamed := NewNames(m, t.columns);
    forall a, b | a in ColumnSet(t) && b in ColumnSet(t) && RenamedName(m, a) == RenamedName(m, b)
      ensures a == b
    {
      var i :| 0 <= i < |t.columns| && t.columns[i] == a;
      var j :| 0 <= j < |t.columns| && t.columns[j] == b;
      assert renamed[i] == renamed[j];
    }
  }

  /** A row with its keys renamed by `m`. */
  function RenameRow(row: Row, m: map<string, string>): (r: Row)
    requires InjectiveOn(m, row.Keys)
    ensures r.Keys == set k | k in row :: RenamedName(m, k)
    ensures forall k :: k in row ==> r[RenamedName(m, k)] == row[k]
  {
    map k | k in row :: RenamedName(m, k) := row[k]
  }

  /**
   * `t.rename(m)`: every column named by a key of `m` takes the mapped name, with its
   * values. Fails (the SFrame raises) when a key is not a column or names would clash.
   */
  function RenameColumns(t: Table, m: map<string, string>): (r: Option<Table>)
    requires WellFormed(t)
    ensures r.Some? <==> CanRename(t, m)
    ensures r.Some? ==> WellFormed(r.value)
    ensures r.Some? ==> |r.value.columns| == |t.columns|
    ensures r.Some? ==> forall j :: 0 <= j < |t.columns| ==> r.value.columns[j] == RenamedName(m, t.columns[j])
    ensures r.Some? ==> |r.value.rows| == |t.rows|
    ensures r.Some? ==> forall i, k :: 0 <= i < |t.rows| && k in t.rows[i] ==>
                          RenamedName(m, k) in r.value.rows[i] && r.value.rows[i][RenamedName(m, k)] == t.rows[i][k]
  {
    if !CanRename(t, m) then None
    else
      var columns := NewNames(m, t.columns);
      DistinctRenameIsInjective(t, m);
      var r := Table(columns, seq(|t.rows|, i requires 0 <= i < |t.rows| => RenameRow(t.rows[i], m)));
      assert ColumnSet(r) == set k | k in ColumnSet(t) :: RenamedName(m, k) by {
        forall c | c in ColumnSet(r) ensures c in set k | k in ColumnSet(t) :: RenamedName(m, k) {
          var j :| 0 <= j < |columns| && columns[j] == c;
          assert t.columns[j] in ColumnSet(t);
        }
      }
      Some(r)
  }

  /** A mutable SFrame object. */
  class Frame {
    var columns: seq<string>
    var rows: seq<Row>

    ghost predicate Valid()
      reads this
    {
      WellFormed(Value())
    }

    function Value(): Table
      reads this
    {
      Table(columns, rows)
    }

    /** A new SFrame holding `t`, as `SFrame.read_csv` produces from a file. */
    constructor FromTable(t: Table)
      requires WellFormed(t)
      ensures Valid() && Value() == t
    {
      columns, rows := t.columns, t.rows;
    }

    /** `self[name] = v`, in place. */
    method AssignColumn(name: string, v: Cell)
      requires Valid()
      modifies this
      ensures Valid() && Value() == Assign(old(Value()), name, v)
    {
      var t := Assign(Value(), name, v);
      columns, rows := t.columns, t.rows;
    }

    /** `self.append(other)`: a new SFrame, or `None` where the SFrame raises; neither operand changes. */
    method Append(other: Frame) returns (r: Option<Frame>)
      requires Valid() && other.Valid()
      ensures r.Some? <==> AppendRows(Value(), other.Value()).Some?
      ensures r.Some? ==> fresh(r.value) && r.value.Valid() && r.value.Value() == AppendRows(Value(), other.Value()).value
    {
      var t := AppendRows(Value(), other.Value());
      if t.Some? {
        var f := new Frame.FromTable(t.value);
        r := Some(f);
      } else {
        r := None;
      }
    }

    /** `self.rename(m, inplace=True)`; on failure (where the SFrame raises) nothing changes. */
    method Rename(m: map<string, string>) returns (ok: bool)
      requires Valid()
      modifies this
      ensures Valid()
      ensures ok <==> RenameColumns(old(Value()), m).Some?
      ensures Value() == if ok then RenameColumns(old(Value()), m).value else old(Value())
    {
      var t := RenameColumns(Value(), m);
      ok := t.Some?;
      if ok {
        columns, rows := t.value.columns, t.value.rows;
      }
    }
  }
}
