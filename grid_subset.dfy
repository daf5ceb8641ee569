/**
 * `subset_grid`: the rectangular index block spanned by the grid cells whose
 * longitude and latitude lie strictly inside an extent.
 */
module GridSubset {
  import opened Wrappers

  /** `[lonmin, lonmax, latmin, latmax]`. */
  datatype Extent = Extent(lonMin: real, lonMax: real, latMin: real, latMax: real)

  /** Rows `rowLo..rowHi` by columns `colLo..colHi`, both inclusive. */
  datatype Box = Box(rowLo: int, rowHi: int, colLo: int, colHi: int)

  /** `np.min` of the empty index arrays raises a ValueError: no cell is inside. */
  datatype GridError = NoCellInside

  predicate SameShape(a: array2<real>, b: array2<real>)
  {
    a.Length0 == b.Length0 && a.Length1 == b.Length1
  }

  /** The mask `lon_ind & lat_ind` at cell (i, j): boundary values are outside. */
  predicate Inside(lon: array2<real>, lat: array2<real>, e: Extent, i: int, j: int)
    reads lon, lat
    requires SameShape(lon, lat) && 0 <= i < lon.Length0 && 0 <= j < lon.Length1
  {
    e.lonMin < lon[i, j] < e.lonMax && e.latMin < lat[i, j] < e.latMax
  }

  predicate InBox(b: Box, i: int, j: int)
  {
    b.rowLo <= i <= b.rowHi && b.colLo <= j <= b.colHi
  }

  /** The smallest box holding both boxes. */
  function Hull(a: Box, b: Box): (r: Box)
    ensures forall i, j :: InBox(a, i, j) || InBox(b, i, j) ==> InBox(r, i, j)
  {
    Box(if a.rowLo <= b.rowLo then a.rowLo else b.rowLo,
        if a.rowHi >= b.rowHi then a.rowHi else b.rowHi,
        if a.colLo <= b.colLo then a.colLo else b.colLo,
        if a.colHi >= b.colHi then a.colHi else b.colHi)
  }

  function Union(a: Option<Box>, b: Option<Box>): Option<Box>
  {
    match (a, b)
    case (None, _) => b
    case (_, None) => a
    case (Some(x), Some(y)) => Some(Hull(x, y))
  }

  /**
   * Within the rows `< rows` and the columns `< cols`: the box is in range,
   * holds every inside cell, and each of its four sides passes through an
   * inside cell (so none of its bounds can be tightened).
   */
  ghost predicate TightBox(lon: array2<real>, lat: array2<real>, e: Extent, rows: int, cols: int, b: Box)
    reads lon, lat
    requires SameShape(lon, lat) && 0 <= rows <= lon.Length0 && 0 <= cols <= lon.Length1
  {
    && 0 <= b.rowLo <= b.rowHi < rows && 0 <= b.colLo <= b.colHi < cols
    && (forall i, j :: 0 <= i < rows && 0 <= j < cols && Inside(lon, lat, e, i, j) ==> InBox(b, i, j))
    && (exists j :: 0 <= j < cols && Inside(lon, lat, e, b.rowLo, j))
    && (exists j :: 0 <= j < cols && Inside(lon, lat, e, b.rowHi, j))
    && (exists i :: 0 <= i < rows && Inside(lon, lat, e, i, b.colLo))
    && (exists i :: 0 <= i < rows && Inside(lon, lat, e, i, b.colHi))
  }

  /** The box of the inside cells of row `i` among its first `cols` columns. */
  function RowBox(lon: array2<real>, lat: array2<real>, e: Extent, i: int, cols: int): (r: Option<Box>)
    reads lon, lat
    requires SameShape(lon, lat) && 0 <= i < lon.Length0 && 0 <= cols <= lon.Length1
    ensures r.None? <==> forall j :: 0 <= j < cols ==> !Inside(lon, lat, e, i, j)
    ensures r.Some? ==>
              r.value.rowLo == i == r.value.rowHi && 0 <= r.value.colLo <= r.value.colHi < cols
              && Inside(lon, lat, e, i, r.value.colLo) && Inside(lon, lat, e, i, r.value.colHi)
              && forall j :: 0 <= j < cols && Inside(lon, lat, e, i, j) ==> r.value.colLo <= j <= r.value.colHi
  {
    if cols == 0 then None
    else
      var j := cols - 1;
      Union(RowBox(lon, lat, e, i, j), if Inside(lon, lat, e, i, j) then Some(Box(i, i, j, j)) else None)
  }

  /** The box of the inside cells of the first `rows` rows. */
  function RowsBox(lon: array2<real>, lat: array2<real>, e: Extent, rows: int): (r: Option<Box>)
    reads lon, lat
    requires SameShape(lon, lat) && 0 <= rows <= lon.Length0
    ensures r.None? <==> forall i, j :: 0 <= i < rows && 0 <= j < lon.Length1 ==> !Inside(lon, lat, e, i, j)
    ensures r.Some? ==> TightBox(lon, lat, e, rows, lon.Length1, r.value)
  {
    if rows == 0 then None
    else Union(RowsBox(lon, lat, e, rows - 1), RowBox(lon, lat, e, rows - 1, lon.Length1))
  }

  /** `np.where` of the mask followed by the minimum and maximum row and column index. */
  function SubsetBox(lon: array2<real>, lat: array2<real>, e: Extent): (r: Result<Box, GridError>)
    reads lon, lat
    requires SameShape(lon, lat)
    ensures r.Failure? <==> forall i, j :: 0 <= i < lon.Length0 && 0 <= j < lon.Length1 ==> !Inside(lon, lat, e, i, j)
    ensures r.Success? ==> TightBox(lon, lat, e, lon.Length0, lon.Length1, r.value)
  {
    match RowsBox(lon, lat, e, lon.Length0)
    case None => Failure(NoCellInside)
    case Some(b) => Success(b)
  }

  /** The block of `data` at rows `b.rowLo..b.rowHi` and columns `b.colLo..b.colHi`. */
  function Crop(data: array2<real>, b: Box): (r: seq<seq<real>>)
    reads data
    requires 0 <= b.rowLo <= b.rowHi < data.Length0 && 0 <= b.colLo <= b.colHi < data.Length1
    ensures |r| == b.rowHi - b.rowLo + 1
    ensures forall k :: 0 <= k < |r| ==> |r[k]| == b.colHi - b.colLo + 1
    ensures forall k, l :: 0 <= k < |r| && 0 <= l < |r[k]| ==> r[k][l] == data[b.rowLo + k, b.colLo + l]
  {
    seq(b.rowHi - b.rowLo + 1, k requires 0 <= k < b.rowHi - b.rowLo + 1 reads data =>
      seq(b.colHi - b.colLo + 1, l requires 0 <= l < b.colHi - b.colLo + 1 reads data =>
        data[b.rowLo + k, b.colLo + l]))
  }

  /**
   * `subset_grid(ds, extent)` for one 2-D field `data` on the grid whose cell
   * coordinates are `lon` (`XLONG`) and `lat` (`XLAT`).
   */
  function SubsetGrid(data: array2<real>, lon: array2<real>, lat: array2<real>, e: Extent)
    : (r: Result<seq<seq<real>>, GridError>)
    reads data, lon, lat
    requires SameShape(lon, lat) && SameShape(data, lon)
    ensures r.Failure? <==> forall i, j :: 0 <= i < lon.Length0 && 0 <= j < lon.Length1 ==> !Inside(lon, lat, e, i, j)
    ensures r.Success? ==> r.value == Crop(data, SubsetBox(lon, lat, e).value)
  {
    match SubsetBox(lon, lat, e)
    case Failure(err) => Failure(err)
    case Success(b) => Success(Crop(data, b))
  }

  /** Every inside cell is in the subset, at its offset from the block's corner. */
  lemma SubsetHoldsInsideCell(data: array2<real>, lon: array2<real>, lat: array2<real>, e: Extent, i: int, j: int)
    requires SameShape(lon, lat) && SameShape(data, lon)
    requires 0 <= i < lon.Length0 && 0 <= j < lon.Length1 && Inside(lon, lat, e, i, j)
    ensures SubsetGrid(data, lon, lat, e).Success?
    ensures var b := SubsetBox(lon, lat, e).value;
      InBox(b, i, j) && SubsetGrid(data, lon, lat, e).value[i - b.rowLo][j - b.colLo] == data[i, j]
  {
  }

  /**
   * The grid is not rectangular in longitude and latitude, so the block can
   * hold outside cells: on a 2x2 grid whose two diagonal cells alone are
   * inside, the block is the whole grid.
   */
  lemma SubsetMayHoldOutsideCells(lon: array2<real>, lat: array2<real>, e: Extent)
    requires SameShape(lon, lat) && lon.Length0 == 2 && lon.Length1 == 2
    requires Inside(lon, lat, e, 0, 0) && Inside(lon, lat, e, 1, 1)
    requires !Inside(lon, lat, e, 0, 1) && !Inside(lon, lat, e, 1, 0)
    ensures SubsetBox(lon, lat, e) == Success(Box(0, 1, 0, 1))
  {
  }
}
