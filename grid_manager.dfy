/**
 * GridManager.GenerateGrid: lays out gridSizeX × gridSizeZ copies of the tile
 * prefab on the y = 0 plane, spaced by the prefab's renderer size, and names
 * each `Tile_{x}_{z}`.
 *
 * Instantiating the prefab into the scene is the engine's job; the model
 * returns the list of (name, position) pairs in the order the tiles are
 * created.
 */
module GridLayout {
  import opened Wrappers
  import opened Geometry

  /** The tile prefab as GenerateGrid sees it: the size of the first Renderer in it, if any. */
  datatype Prefab = Prefab(rendererSize: Option<Vec3>)

  datatype TilePlacement = TilePlacement(name: string, position: Vec3)

  function Max0(n: int): nat { if n < 0 then 0 else n }

  // ---------------------------------------------------------------------------
  // Names: C#'s decimal formatting of a non-negative int
  // ---------------------------------------------------------------------------

  function Digit(d: nat): char
    requires d < 10
  {
    ('0' as int + d) as char
  }

  function NatToString(n: nat): string
  {
    if n < 10 then [Digit(n)] else NatToString(n / 10) + [Digit(n % 10)]
  }

  predicate IsDigits(s: string)
  {
    forall i :: 0 <= i < |s| ==> '0' <= s[i] <= '9'
  }

  /** `$"Tile_{x}_{z}"`. */
  function TileName(x: nat, z: nat): string
  {
    "Tile_" + NatToString(x) + "_" + NatToString(z)
  }

  lemma {:induction false} NatToStringDigits(n: nat)
    ensures IsDigits(NatToString(n))
  {
    if n >= 10 {
      NatToStringDigits(n / 10);
    }
  }

  /** Reads a string of decimal digits back as a number. */
  function ParseDigits(s: string): nat
    requires IsDigits(s)
  {
    if s == [] then 0 else ParseDigits(s[..|s| - 1]) * 10 + (s[|s| - 1] as int - '0' as int)
  }

  /** Printing a number and reading it back gives the number. */
  lemma {:induction false} ParseNatToString(n: nat)
    ensures IsDigits(NatToString(n)) && ParseDigits(NatToString(n)) == n
  {
    NatToStringDigits(n);
    var s := NatToString(n);
    if n >= 10 {
      ParseNatToString(n / 10);
      assert s[..|s| - 1] == NatToString(n / 10);
    }
  }

  /** Different numbers are printed differently. */
  lemma NatToStringInjective(a: nat, b: nat)
    requires NatToString(a) == NatToString(b)
    ensures a == b
  {
    ParseNatToString(a);
    ParseNatToString(b);
  }

  /** Position of the first '_' in `w`, or |w| when there is none. */
  function IndexOfUnderscore(w: string): nat
  {
    if w == [] then 0 else if w[0] == '_' then 0 else 1 + IndexOfUnderscore(w[1..])
  }

  lemma {:induction false} UnderscoreAfterDigits(s: string, t: string)
    requires IsDigits(s)
    ensures IndexOfUnderscore(s + "_" + t) == |s|
  {
    if s != [] {
      assert (s + "_" + t)[1..] == s[1..] + "_" + t;
      UnderscoreAfterDigits(s[1..], t);
    }
  }

  /** Two digit strings joined by '_' can be split back apart. */
  lemma SplitAtUnderscore(s1: string, t1: string, s2: string, t2: string)
    requires IsDigits(s1) && IsDigits(s2)
    requires s1 + "_" + t1 == s2 + "_" + t2
    ensures s1 == s2 && t1 == t2
  {
    var w := s1 + "_" + t1;
    UnderscoreAfterDigits(s1, t1);
    UnderscoreAfterDigits(s2, t2);
    assert s1 == w[..|s1|] == s2;
    assert t1 == w[|s1| + 1..] == t2;
  }

  /** Distinct index pairs give distinct tile names. */
  lemma TileNameInjective(x: nat, z: nat, x': nat, z': nat)
    requires TileName(x, z) == TileName(x', z')
    ensures x == x' && z == z'
  {
    var a, b, a', b' := NatToString(x), NatToString(z), NatToString(x'), NatToString(z');
    NatToStringDigits(x);
    NatToStringDigits(x');
    assert "Tile_" + (a + "_" + b) == TileName(x, z) == TileName(x', z') == "Tile_" + (a' + "_" + b');
    assert a + "_" + b == ("Tile_" + (a + "_" + b))[5..] == a' + "_" + b';
    SplitAtUnderscore(a, b, a', b');
    NatToStringInjective(x, x');
    NatToStringInjective(z, z');
  }

  // ---------------------------------------------------------------------------
  // The layout
  // ---------------------------------------------------------------------------

  /** Where the tile with index pair (x, z) is placed. */
  function TilePosition(x: nat, z: nat, size: Vec3): Vec3
  {
    Vec3(x as real * size.x, 0.0, z as real * size.z)
  }

  /** What the loop body creates for the index pair (x, z). */
  function TileAt(x: nat, z: nat, size: Vec3): TilePlacement
  {
    TilePlacement(TileName(x, z), TilePosition(x, z, size))
  }

  /** The tiles the inner loop creates for column x, for z = 0 .. nz - 1. */
  function Row(x: nat, nz: nat, size: Vec3): seq<TilePlacement>
  {
    if nz == 0 then [] else Row(x, nz - 1, size) + [TileAt(x, nz - 1, size)]
  }

  /** The tiles both loops create for x = 0 .. nx - 1. */
  function Layout(nx: nat, nz: nat, size: Vec3): seq<TilePlacement>
  {
    if nx == 0 then [] else Layout(nx - 1, nz, size) + Row(nx - 1, nz, size)
  }

  lemma {:induction false} RowAt(x: nat, nz: nat, size: Vec3, z: nat)
    requires z < nz
    ensures |Row(x, nz, size)| == nz && Row(x, nz, size)[z] == TileAt(x, z, size)
  {
    RowLength(x, nz - 1, size);
    if z < nz - 1 {
      RowAt(x, nz - 1, size, z);
    }
  }

  lemma {:induction false} RowLength(x: nat, nz: nat, size: Vec3)
    ensures |Row(x, nz, size)| == nz
  {
    if nz > 0 {
      RowLength(x, nz - 1, size);
    }
  }

  /** Exactly nx · nz tiles. */
  lemma {:induction false} LayoutLength(nx: nat, nz: nat, size: Vec3)
    ensures |Layout(nx, nz, size)| == nx * nz
  {
    if nx > 0 {
      LayoutLength(nx - 1, nz, size);
      RowLength(nx - 1, nz, size);
      assert (nx - 1) * nz + nz == nx * nz;
    }
  }

  /** Tiles come x-major: tile (x, z) sits at index x · nz + z. */
  lemma {:induction false} LayoutAt(nx: nat, nz: nat, size: Vec3, x: nat, z: nat)
    requires x < nx && z < nz
    ensures x * nz + z < |Layout(nx, nz, size)|
    ensures Layout(nx, nz, size)[x * nz + z] == TileAt(x, z, size)
  {
    var before := Layout(nx - 1, nz, size);
    var row := Row(nx - 1, nz, size);
    assert Layout(nx, nz, size) == before + row;
    LayoutLength(nx - 1, nz, size);
    RowLength(nx - 1, nz, size);
    var i := x * nz + z;
    if x < nx - 1 {
      LayoutAt(nx - 1, nz, size, x, z);
      assert i < |before|;
    } else {
      assert i == |before| + z;
      RowAt(x, nz, size, z);
    }
  }

  /** Every tile of the layout is TileAt of some index pair, at that pair's index. */
  lemma {:induction false} LayoutIndex(nx: nat, nz: nat, size: Vec3, i: nat)
    requires i < |Layout(nx, nz, size)|
    ensures exists x: nat, z: nat :: x < nx && z < nz && i == x * nz + z && Layout(nx, nz, size)[i] == TileAt(x, z, size)
  {
    var before := Layout(nx - 1, nz, size);
    assert Layout(nx, nz, size) == before + Row(nx - 1, nz, size);
    LayoutLength(nx - 1, nz, size);
    RowLength(nx - 1, nz, size);
    if i < |before| {
      LayoutIndex(nx - 1, nz, size, i);
      var x: nat, z: nat :| x < nx - 1 && z < nz && i == x * nz + z && before[i] == TileAt(x, z, size);
      assert x < nx && Layout(nx, nz, size)[i] == TileAt(x, z, size);
    } else {
      var z: nat := i - |before|;
      assert i == (nx - 1) * nz + z;
      RowAt(nx - 1, nz, size, z);
      assert Layout(nx, nz, size)[i] == TileAt(nx - 1, z, size);
    }
  }

  /** No two tiles of a layout have the same name. */
  lemma LayoutNamesDistinct(nx: nat, nz: nat, size: Vec3, i: nat, j: nat)
    requires i < j < |Layout(nx, nz, size)|
    ensures Layout(nx, nz, size)[i].name != Layout(nx, nz, size)[j].name
  {
    LayoutIndex(nx, nz, size, i);
    LayoutIndex(nx, nz, size, j);
    var xi: nat, zi: nat :| xi < nx && zi < nz && i == xi * nz + zi && Layout(nx, nz, size)[i] == TileAt(xi, zi, size);
    var xj: nat, zj: nat :| xj < nx && zj < nz && j == xj * nz + zj && Layout(nx, nz, size)[j] == TileAt(xj, zj, size);
    if TileName(xi, zi) == TileName(xj, zj) {
      TileNameInjective(xi, zi, xj, zj);
      assert false;
    }
  }

  /** With a footprint positive on both axes, distinct index pairs are placed apart. */
  lemma TilePositionsDistinct(x: nat, z: nat, x': nat, z': nat, size: Vec3)
    requires size.x > 0.0 && size.z > 0.0
    requires x != x' || z != z'
    ensures TilePosition(x, z, size) != TilePosition(x', z', size)
  {
    if x != x' {
      ScaleInjective(x, x', size.x);
    } else {
      ScaleInjective(z, z', size.z);
    }
  }

  lemma ScaleInjective(a: nat, b: nat, k: real)
    requires k > 0.0 && a != b
    ensures a as real * k != b as real * k
  {
    var d := (a as real - b as real) * k;
    assert d == a as real * k - b as real * k;
    assert d != 0.0;
  }

  /** With a footprint positive on both axes, no two tiles of a layout share a position. */
  lemma LayoutPositionsDistinct(nx: nat, nz: nat, size: Vec3, i: nat, j: nat)
    requires size.x > 0.0 && size.z > 0.0
    requires i < j < |Layout(nx, nz, size)|
    ensures Layout(nx, nz, size)[i].position != Layout(nx, nz, size)[j].position
  {
    var tiles := Layout(nx, nz, size);
    LayoutIndex(nx, nz, size, i);
    LayoutIndex(nx, nz, size, j);
    var xi: nat, zi: nat :| xi < nx && zi < nz && i == xi * nz + zi && tiles[i] == TileAt(xi, zi, size);
    var xj: nat, zj: nat :| xj < nx && zj < nz && j == xj * nz + zj && tiles[j] == TileAt(xj, zj, size);
    TilePositionsDistinct(xi, zi, xj, zj, size);
  }

  /**
   * GenerateGrid. A missing prefab and a prefab without a Renderer produce no
   * tiles (the source logs and returns); otherwise the tiles of
   * Layout(max(gridSizeX, 0), max(gridSizeZ, 0), prefab size) are created.
   */
  method GenerateGrid(tilePrefab: Option<Prefab>, gridSizeX: int, gridSizeZ: int)
    returns (tiles: seq<TilePlacement>)
    ensures tilePrefab.None? || tilePrefab.value.rendererSize.None? ==> tiles == []
    ensures tilePrefab.Some? && tilePrefab.value.rendererSize.Some? ==>
              tiles == Layout(Max0(gridSizeX), Max0(gridSizeZ), tilePrefab.value.rendererSize.value)
  {
    tiles := [];
    if tilePrefab.None? {
      return;
    }
    if tilePrefab.value.rendererSize.None? {
      return;
    }
    var tileSize := tilePrefab.value.rendererSize.value;
    var x := 0;
    while x < gridSizeX
      invariant 0 <= x <= Max0(gridSizeX)
      invariant tiles == Layout(x, Max0(gridSizeZ), tileSize)
    {
      var z := 0;
      while z < gridSizeZ
        invariant 0 <= z <= Max0(gridSizeZ)
        invariant tiles == Layout(x, Max0(gridSizeZ), tileSize) + Row(x, z, tileSize)
      {
        var position := TilePosition(x, z, tileSize);
        var name := "Tile_" + NatToString(x) + "_" + NatToString(z);
        tiles := tiles + [TilePlacement(name, position)];
        assert Row(x, z + 1, tileSize) == Row(x, z, tileSize) + [TileAt(x, z, tileSize)];
        z := z + 1;
      }
      assert Layout(x + 1, Max0(gridSizeZ), tileSize) == Layout(x, Max0(gridSizeZ), tileSize) + Row(x, z, tileSize);
      x := x + 1;
    }
  }
}
