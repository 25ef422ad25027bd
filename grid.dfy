/**
 * The board layout: a width x length grid of tiles stored column-major in
 * one flat list, each tile placed at its indices times the cell pitch.
 */
module Grids {

  /** The immutable part of a tile: its grid indices and its world placement (y is always 0). */
  datatype TileCoord = TileCoord(indexX: nat, indexZ: nat, x: real, z: real)

  /** The tile built for column i, row j: placed at index x (tileSize + tileSpacing) on x and z. */
  function Placement(i: nat, j: nat, tileSize: real, tileSpacing: real): (t: TileCoord)
    ensures t.indexX == i && t.indexZ == j
  {
    TileCoord(i, j, (i as real) * (tileSize + tileSpacing), (j as real) * (tileSize + tileSpacing))
  }

  /** Vector3.DistanceSquared between two tile positions (both at height 0). */
  function SquaredDistance(a: TileCoord, b: TileCoord): (d: real)
    ensures d >= 0.0
    ensures a.x == b.x && a.z == b.z ==> d == 0.0
  {
    var dx := a.x - b.x;
    var dz := a.z - b.z;
    RealSquare(dx);
    RealSquare(dz);
    dx * dx + dz * dz
  }

  /** A square is never negative. */
  lemma RealSquare(d: real)
    ensures d * d >= 0.0
  {
    if d < 0.0 {
      assert d * d == (-d) * (-d);
    }
  }

  class Grid {
    const width: nat
    const length: nat
    const tileSize: real
    const tileSpacing: real
    const tileList: seq<TileCoord>

    /** The layout invariant: one tile per cell, the tile at flat index k sits at column k / length, row k % length. */
    ghost predicate Valid()
    {
      && |tileList| == width * length
      && forall k :: 0 <= k < |tileList| ==>
           && tileList[k].indexX < width
           && tileList[k].indexZ < length
           && tileList[k].indexX * length + tileList[k].indexZ == k
           && tileList[k] == Placement(tileList[k].indexX, tileList[k].indexZ, tileSize, tileSpacing)
    }

    constructor (width: nat, length: nat, tileSize: real, tileSpacing: real)
      ensures Valid()
      ensures this.width == width && this.length == length
      ensures this.tileSize == tileSize && this.tileSpacing == tileSpacing
    {
      this.width := width;
      this.length := length;
      this.tileSize := tileSize;
      this.tileSpacing := tileSpacing;
      var list: seq<TileCoord> := [];
      var i := 0;
      while i < width
        invariant 0 <= i <= width
        invariant |list| == i * length
        invariant forall k :: 0 <= k < |list| ==>
                    && list[k].indexX < i
                    && list[k].indexZ < length
                    && list[k].indexX * length + list[k].indexZ == k
                    && list[k] == Placement(list[k].indexX, list[k].indexZ, tileSize, tileSpacing)
      {
        var j := 0;
        while j < length
          invariant 0 <= j <= length
          invariant |list| == i * length + j
          invariant forall k :: 0 <= k < |list| ==>
                      && list[k].indexX <= i
                      && list[k].indexZ < length
                      && list[k].indexX * length + list[k].indexZ == k
                      && list[k] == Placement(list[k].indexX, list[k].indexZ, tileSize, tileSpacing)
        {
          list := list + [Placement(i, j, tileSize, tileSpacing)];
          j := j + 1;
        }
        assert |list| == (i + 1) * length;
        i := i + 1;
      }
      tileList := list;
    }

    /** The tile at flat index i * length + j is the one built for column i, row j. */
    lemma TileAtCell(i: nat, j: nat)
      requires Valid() && i < width && j < length
      ensures i * length + j < |tileList| && tileList[i * length + j] == Placement(i, j, tileSize, tileSpacing)
    {
      LayoutCell(tileList, width, length, tileSize, tileSpacing, i, j);
    }

    /**
     * With a positive pitch no two tiles share a position: two different
     * flat indices hold tiles that differ in x or in z.
     */
    lemma DistinctPositions(k: nat, m: nat)
      requires Valid() && k < |tileList| && m < |tileList| && k != m
      requires tileSize + tileSpacing > 0.0
      ensures tileList[k].x != tileList[m].x || tileList[k].z != tileList[m].z
    {
      var a, b := tileList[k], tileList[m];
      assert a.indexX * length + a.indexZ == k && b.indexX * length + b.indexZ == m;
      assert a == Placement(a.indexX, a.indexZ, tileSize, tileSpacing);
      assert b == Placement(b.indexX, b.indexZ, tileSize, tileSpacing);
      var pitch := tileSize + tileSpacing;
      if a.indexX != b.indexX {
        var di := a.indexX as real - b.indexX as real;
        assert a.x - b.x == di * pitch;
        ScaledApart(di, pitch);
      } else {
        assert a.indexZ != b.indexZ;
        var dj := a.indexZ as real - b.indexZ as real;
        assert a.z - b.z == dj * pitch;
        ScaledApart(dj, pitch);
      }
    }
  }

  /** Scaling a non-zero difference by a positive pitch keeps it non-zero. */
  lemma ScaledApart(d: real, pitch: real)
    requires d != 0.0 && pitch > 0.0
    ensures d * pitch != 0.0
  {
    if d < 0.0 {
      assert (-d) * pitch > 0.0;
    }
  }

  /** Each tile of the list sits at the flat index of its own column and row. */
  ghost predicate LaidOut(tiles: seq<TileCoord>, length: nat, tileSize: real, tileSpacing: real)
  {
    forall k :: 0 <= k < |tiles| ==>
      && tiles[k].indexZ < length
      && tiles[k].indexX * length + tiles[k].indexZ == k
      && tiles[k] == Placement(tiles[k].indexX, tiles[k].indexZ, tileSize, tileSpacing)
  }

  lemma LayoutCell(tiles: seq<TileCoord>, width: nat, length: nat, tileSize: real, tileSpacing: real, i: nat, j: nat)
    requires |tiles| == width * length
    requires LaidOut(tiles, length, tileSize, tileSpacing)
    requires i < width && j < length
    ensures i * length + j < |tiles| && tiles[i * length + j] == Placement(i, j, tileSize, tileSpacing)
  {
    FlatIndexInRange(i, j, width, length);
    var k := i * length + j;
    var t := tiles[k];
    assert t.indexZ < length && t.indexX * length + t.indexZ == k;
    FlatIndexUnique(t.indexX, t.indexZ, i, j, length);
  }

  lemma FlatIndexInRange(i: nat, j: nat, width: nat, length: nat)
    requires i < width && j < length
    ensures i * length + j < width * length
  {
    MulStep(i, width, length);
  }

  /** Multiplication by a natural is monotone: x < y gives x * L + L <= y * L. */
  lemma {:induction false} MulStep(x: nat, y: nat, L: nat)
    requires x < y
    ensures x * L + L <= y * L
    decreases y - x
  {
    if x + 1 < y {
      MulStep(x + 1, y, L);
    }
  }

  /** The flat index i * length + j determines (i, j) when j < length. */
  lemma FlatIndexUnique(a: nat, b: nat, i: nat, j: nat, length: nat)
    requires b < length && j < length && a * length + b == i * length + j
    ensures a == i && b == j
  {
    if a < i {
      MulStep(a, i, length);
    } else if i < a {
      MulStep(i, a, length);
    }
  }
}
