/** The generic two-dimensional grid store (Grid.cs): a column-by-row array of
    cells with bounds-checked reads and writes, each write announcing a change
    event, and the conversion between cell indices and world positions. */
module GridStore {

  /** Unity's Vector3. */
  datatype Vector3 = Vector3(x: real, y: real, z: real)

  /** Unity's Vector2Int. */
  datatype Vector2Int = Vector2Int(x: int, y: int)

  /** The OnGridDataChanged event: the cell written and the value written to it
      (the grid that raised it is the grid whose log holds it). */
  datatype GridDataChanged<T> = GridDataChanged(xIndex: int, yIndex: int, data: T)

  /** Mathf.FloorToInt on exact reals: the largest integer not above r. */
  function FloorToInt(r: real): (n: int)
    ensures n as real <= r < n as real + 1.0
  {
    r.Floor
  }

  /** The events of filling column x, rows 0 .. rows-1, in the order they are raised. */
  function ColumnEvents<T>(x: int, rows: nat, createData: (int, int) -> T): (r: seq<GridDataChanged<T>>)
    ensures |r| == rows
    ensures forall y :: 0 <= y < rows ==> r[y] == GridDataChanged(x, y, createData(x, y))
  {
    seq(rows, y => GridDataChanged(x, y, createData(x, y)))
  }

  /** The events raised by the constructor's nested loops over columns 0 .. columns-1:
      column by column, and within a column row by row. */
  function FillEvents<T>(columns: nat, rows: nat, createData: (int, int) -> T): (r: seq<GridDataChanged<T>>)
    ensures |r| == columns * rows
  {
    if columns == 0 then [] else FillEvents(columns - 1, rows, createData) + ColumnEvents(columns - 1, rows, createData)
  }

  lemma ColumnEventsSnoc<T>(x: int, rows: nat, createData: (int, int) -> T)
    ensures ColumnEvents(x, rows + 1, createData)
         == ColumnEvents(x, rows, createData) + [GridDataChanged(x, rows, createData(x, rows))]
  {
    assert ColumnEvents(x, rows + 1, createData)[..rows] == ColumnEvents(x, rows, createData);
  }

  /** The n-th event of the fill names cell (n / rows, n % rows): the constructor
      visits every cell exactly once, column-major. */
  lemma {:induction false} FillEventsVisitCellsInOrder<T>(columns: nat, rows: nat, createData: (int, int) -> T, n: nat)
    requires n < columns * rows
    ensures FillEvents(columns, rows, createData)[n]
         == GridDataChanged(n / rows, n % rows, createData(n / rows, n % rows))
  {
    var prev := (columns - 1) * rows;
    assert prev == columns * rows - rows;
    if n < prev {
      FillEventsVisitCellsInOrder(columns - 1, rows, createData, n);
    } else {
      var y := n - prev;
      assert 0 <= y < rows;
      DivModOfColumn(columns - 1, rows, y);
    }
  }

  lemma DivModOfColumn(x: nat, rows: nat, y: nat)
    requires y < rows
    ensures (x * rows + y) / rows == x && (x * rows + y) % rows == y
  {
    var n := x * rows + y;
    var q, r := n / rows, n % rows;
    assert n == q * rows + r && 0 <= r < rows;
    assert (x - q) * rows == r - y by {
      assert (x - q) * rows == x * rows - q * rows;
    }
    if x > q {
      assert (x - q) * rows >= rows by { MulAtLeast(x - q, rows); }
    } else if x < q {
      assert (q - x) * rows >= rows by { MulAtLeast(q - x, rows); }
    }
  }

  lemma MulAtLeast(k: int, rows: nat)
    requires k >= 1
    ensures k * rows >= rows
  {
    assert k * rows == (k - 1) * rows + rows;
    assert (k - 1) * rows >= 0;
  }

  class Grid<T> {
    const RowNumber: int
    const ColumnNumber: int
    const CellSize: real
    const offsetPosition: Vector3
    /** The value C#'s default(TGridData) gives: the answer for a missing cell. */
    const defaultData: T
    /** Indexed [column, row]. */
    const gridDataArray: array2<T>
    /** The OnGridDataChanged events raised so far, oldest first. */
    ghost var Events: seq<GridDataChanged<T>>

    ghost predicate Valid() {
      gridDataArray.Length0 == ColumnNumber && gridDataArray.Length1 == RowNumber
    }

    /** Builds a row-by-column grid and fills every cell, column by column, with
        createData(x, y) through SetData. */
    constructor (row: int, column: int, cellSize: real, offsetPosition: Vector3,
                 defaultData: T, createData: (int, int) -> T)
      requires row >= 0 && column >= 0
      ensures Valid()
      ensures RowNumber == row && ColumnNumber == column
      ensures CellSize == cellSize && this.offsetPosition == offsetPosition && this.defaultData == defaultData
      ensures forall x, y :: CheckCellExist(x, y) ==> GetData(x, y) == createData(x, y)
      ensures Events == FillEvents(column, row, createData)
      ensures fresh(gridDataArray)
    {
      RowNumber := row;
      ColumnNumber := column;
      CellSize := cellSize;
      this.offsetPosition := offsetPosition;
      this.defaultData := defaultData;
      gridDataArray := new T[column, row]((_, _) => defaultData);
      Events := [];
      new;
      for x := 0 to column
        invariant Valid() && fresh(gridDataArray)
        invariant forall a, b :: 0 <= a < x && 0 <= b < row ==> GetData(a, b) == createData(a, b)
        invariant Events == FillEvents(x, row, createData)
      {
        for y := 0 to row
          invariant Valid()
          invariant forall a, b :: 0 <= a < x && 0 <= b < row ==> GetData(a, b) == createData(a, b)
          invariant forall b :: 0 <= b < y ==> GetData(x, b) == createData(x, b)
          invariant Events == FillEvents(x, row, createData) + ColumnEvents(x, y, createData)
        {
          SetData(x, y, createData(x, y));
          ColumnEventsSnoc(x, y, createData);
        }
      }
    }

    /** Whether (xIndex, yIndex) names a cell of the grid. */
    predicate CheckCellExist(xIndex: int, yIndex: int) {
      0 <= xIndex < ColumnNumber && 0 <= yIndex < RowNumber
    }

    /** The world position of a cell's corner: the x index scales the world x, the
        y index scales the world z, and the world y is the offset's y. */
    function GetWorldPosition(xIndex: int, yIndex: int): (r: Vector3)
      ensures r.x - offsetPosition.x == xIndex as real * CellSize
      ensures r.y == offsetPosition.y
      ensures r.z - offsetPosition.z == yIndex as real * CellSize
    {
      Vector3(xIndex as real * CellSize + offsetPosition.x,
              0.0 * CellSize + offsetPosition.y,
              yIndex as real * CellSize + offsetPosition.z)
    }

    /** The cell a world position falls in; the world y is ignored. For a positive
        cell size the position lies in the half-open span of that cell. */
    function GetGridIndex(worldPosition: Vector3): (r: Vector2Int)
      requires CellSize != 0.0
      ensures CellSize > 0.0 ==>
        r.x as real * CellSize <= worldPosition.x - offsetPosition.x < (r.x + 1) as real * CellSize
      ensures CellSize > 0.0 ==>
        r.y as real * CellSize <= worldPosition.z - offsetPosition.z < (r.y + 1) as real * CellSize
    {
      var qx := (worldPosition.x - offsetPosition.x) / CellSize;
      var qz := (worldPosition.z - offsetPosition.z) / CellSize;
      var r := Vector2Int(FloorToInt(qx), FloorToInt(qz));
      if CellSize > 0.0 then
        ScaleBounds(r.x, qx, CellSize, worldPosition.x - offsetPosition.x);
        ScaleBounds(r.y, qz, CellSize, worldPosition.z - offsetPosition.z);
        r
      else r
    }

    /** The cell's value, or the default value when the cell does not exist. */
    function GetData(xIndex: int, yIndex: int): (r: T)
      reads gridDataArray
      requires Valid()
      ensures !CheckCellExist(xIndex, yIndex) ==> r == defaultData
    {
      if !CheckCellExist(xIndex, yIndex) then defaultData else gridDataArray[xIndex, yIndex]
    }

    /** GetData at the cell a world position falls in. */
    function GetDataAtWorld(worldPosition: Vector3): (r: T)
      reads gridDataArray
      requires Valid() && CellSize != 0.0
      ensures !CheckCellExist(GetGridIndex(worldPosition).x, GetGridIndex(worldPosition).y) ==> r == defaultData
    {
      var gridIndex := GetGridIndex(worldPosition);
      GetData(gridIndex.x, gridIndex.y)
    }

    /** Writes one existing cell and raises one change event for it; a missing
        cell is ignored and no event is raised. */
    method SetData(xIndex: int, yIndex: int, data: T)
      requires Valid()
      modifies this, gridDataArray
      ensures Valid()
      ensures CheckCellExist(xIndex, yIndex) ==>
        GetData(xIndex, yIndex) == data && Events == old(Events) + [GridDataChanged(xIndex, yIndex, data)]
      ensures !CheckCellExist(xIndex, yIndex) ==> unchanged(gridDataArray) && Events == old(Events)
      ensures forall a, b :: (a != xIndex || b != yIndex) ==> GetData(a, b) == old(GetData(a, b))
    {
      if !CheckCellExist(xIndex, yIndex) {
        return;
      }
      gridDataArray[xIndex, yIndex] := data;
      Events := Events + [GridDataChanged(xIndex, yIndex, data)];
    }

    /** SetData at the cell a world position falls in. */
    method SetDataAtWorld(worldPosition: Vector3, data: T)
      requires Valid() && CellSize != 0.0
      modifies this, gridDataArray
      ensures Valid()
      ensures var i := GetGridIndex(worldPosition);
        (CheckCellExist(i.x, i.y) ==>
           GetDataAtWorld(worldPosition) == data && Events == old(Events) + [GridDataChanged(i.x, i.y, data)]) &&
        (!CheckCellExist(i.x, i.y) ==> unchanged(gridDataArray) && Events == old(Events)) &&
        (forall a, b :: (a != i.x || b != i.y) ==> GetData(a, b) == old(GetData(a, b)))
    {
      var gridIndex := GetGridIndex(worldPosition);
      SetData(gridIndex.x, gridIndex.y, data);
    }

    /** With exact arithmetic the world position of a cell converts back to that
        cell, whatever the sign of the (non-zero) cell size. */
    lemma GridIndexOfWorldPosition(xIndex: int, yIndex: int)
      requires CellSize != 0.0
      ensures GetGridIndex(GetWorldPosition(xIndex, yIndex)) == Vector2Int(xIndex, yIndex)
    {
      var w := GetWorldPosition(xIndex, yIndex);
      ScaleBack(xIndex, CellSize, w.x - offsetPosition.x);
      ScaleBack(yIndex, CellSize, w.z - offsetPosition.z);
    }

    /** The world-position read at a cell's world position is the index read. */
    lemma GetDataAtWorldPosition(xIndex: int, yIndex: int)
      requires Valid() && CellSize != 0.0
      ensures GetDataAtWorld(GetWorldPosition(xIndex, yIndex)) == GetData(xIndex, yIndex)
    {
      GridIndexOfWorldPosition(xIndex, yIndex);
    }
  }

  lemma ScaleBounds(n: int, q: real, c: real, d: real)
    requires c > 0.0 && q == d / c && n as real <= q < n as real + 1.0
    ensures n as real * c <= d < (n + 1) as real * c
  {
    var m := (n + 1) as real;
    assert d == q * c;
    assert n as real * c <= q * c;
    assert 0.0 < (m - q) * c;
    assert (m - q) * c == m * c - q * c;
    assert d < m * c;
  }

  lemma ScaleBack(i: int, c: real, d: real)
    requires c != 0.0 && d == i as real * c
    ensures FloorToInt(d / c) == i
  {
    assert d / c == i as real;
  }
}
