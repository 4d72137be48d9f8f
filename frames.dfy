/**
 * A CSV file as pandas reads it: an ordered list of column names and the rows
 * in file order, each row holding one optional cell per column.
 */
module Frames {
  import opened Common

  datatype Frame = Frame(columns: seq<string>, rows: seq<seq<Cell>>)

  /** The cell of `row` in column `j`; a short row reads as missing. */
  function CellAt(row: seq<Cell>, j: nat): Cell
  {
    if j < |row| then row[j] else None
  }

  /** `df.columns = df.columns.str.strip()` */
  function StripColumns(f: Frame): (r: Frame)
    ensures r.rows == f.rows && |r.columns| == |f.columns|
    ensures forall j :: 0 <= j < |f.columns| ==> r.columns[j] == Strip(f.columns[j])
  {
    Frame(seq(|f.columns|, j requires 0 <= j < |f.columns| => Strip(f.columns[j])), f.rows)
  }

  /** `df.rename(columns=...)`: each column name is replaced by its new name; the rows stay as they are. */
  function RenameColumns(f: Frame, rename: string -> string): (r: Frame)
    ensures r.rows == f.rows && |r.columns| == |f.columns|
    ensures forall j :: 0 <= j < |f.columns| ==> r.columns[j] == rename(f.columns[j])
  {
    Frame(seq(|f.columns|, j requires 0 <= j < |f.columns| => rename(f.columns[j])), f.rows)
  }

  /** Where column `name` is, if it is present: its first position. */
  function ColumnIndex(columns: seq<string>, name: string): (r: Option<nat>)
    ensures r.None? <==> name !in columns
    ensures r.Some? ==> r.value < |columns| && columns[r.value] == name
                        && forall j :: 0 <= j < r.value ==> columns[j] != name
  {
    if columns == [] then None
    else if columns[0] == name then Some(0)
    else
      match ColumnIndex(columns[1..], name)
      case None => None
      case Some(j) => Some(j + 1)
  }

  /** `df[name]`: the column's cells in row order, or a KeyError when it is absent. */
  function Column(f: Frame, name: string): (r: Result<seq<Cell>, Error>)
    ensures r.Err? <==> name !in f.columns
    ensures r.Err? ==> r.error == KeyError(name)
    ensures r.Ok? ==> |r.value| == |f.rows|
                      && forall i :: 0 <= i < |f.rows| ==> r.value[i] == CellAt(f.rows[i], ColumnIndex(f.columns, name).value)
  {
    match ColumnIndex(f.columns, name)
    case None => Err(KeyError(name))
    case Some(j) => Ok(seq(|f.rows|, i requires 0 <= i < |f.rows| => CellAt(f.rows[i], j)))
  }

  /** Whether more than one column has the name `name`. */
  predicate Repeated(columns: seq<string>, name: string)
  {
    exists i, j :: 0 <= i < j < |columns| && columns[i] == name && columns[j] == name
  }

  /**
   * `df[name].unique()`: the column's cells; a KeyError when it is absent, and
   * an AttributeError when the name is repeated, since `df[name]` is then a
   * DataFrame, which has no `unique`.
   */
  function SeriesColumn(f: Frame, name: string): (r: Result<seq<Cell>, Error>)
    ensures r.Err? <==> name !in f.columns || Repeated(f.columns, name)
    ensures name in f.columns && Repeated(f.columns, name) ==> r == Err(AttributeError)
    ensures r.Ok? ==> r == Column(f, name)
  {
    if Repeated(f.columns, name) then Err(AttributeError) else Column(f, name)
  }

  /** The positions below `n` that satisfy `keep`, in increasing order. */
  function IndicesWhere(n: nat, keep: nat -> bool): (r: seq<nat>)
    ensures forall k :: 0 <= k < |r| ==> r[k] < n && keep(r[k])
    ensures forall k, l :: 0 <= k < l < |r| ==> r[k] < r[l]
    ensures forall i :: 0 <= i < n && keep(i) ==> i in r
  {
    if n == 0 then []
    else
      var p := IndicesWhere(n - 1, keep);
      if keep(n - 1) then p + [n - 1] else p
  }

  /** Where a listed position sits in the listing. */
  lemma PositionOf(xs: seq<nat>, x: nat) returns (k: nat)
    requires x in xs
    ensures k < |xs| && xs[k] == x
  {
    k :| k < |xs| && xs[k] == x;
  }
}
