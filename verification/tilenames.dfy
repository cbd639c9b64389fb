/** The cache file names under which the map sources store downloaded tiles:
    pathmap/mapycz.py (lines 92-93) and pathmap/cykloserver.py (lines 132-133)
    both write "<prefix><x>_<y>.png" with the tile's integer column and row. */
module TileNames {
  import opened Outcomes
  import opened Strings
  import opened Tiles

  const Extension := ".png"

  /** "<prefix>{x}_{y}.png" for the tile (x, y). */
  function Filename(prefix: string, t: Tile): string
  {
    prefix + IntString(t.x) + "_" + IntString(t.y) + Extension
  }

  /** Mapy.cz tiles are cached as mapycz_{x}_{y}.png; the name reads back to its tile. */
  function MapyczFilename(t: Tile): (r: string)
    ensures ParseFilename("mapycz_", r) == Some(t)
  {
    FilenameRoundTrip("mapycz_", t);
    Filename("mapycz_", t)
  }

  /** Cykloserver tiles are cached as tile_{x}_{y}.png; the name reads back to its tile. */
  function CykloFilename(t: Tile): (r: string)
    ensures ParseFilename("tile_", r) == Some(t)
  {
    FilenameRoundTrip("tile_", t);
    Filename("tile_", t)
  }

  /** Reads a cache name back: strips the prefix and extension and splits the
      rest at its first '_'; None when the name does not have that shape. */
  function ParseFilename(prefix: string, name: string): Option<Tile>
  {
    if |name| < |prefix| + |Extension| || name[..|prefix|] != prefix || name[|name| - |Extension|..] != Extension then None
    else
      match SplitOnce(name[|prefix|..|name| - |Extension|], '_')
      case None => None
      case Some(h) => Some(Tile(ParseInt(h.before), ParseInt(h.after)))
  }

  /** str() of an integer never contains '_'. */
  lemma NoUnderscore(x: int)
    ensures '_' !in IntString(x)
  {
    IntStringChars(x);
  }

  /** Every cache name reads back to its tile. */
  lemma FilenameRoundTrip(prefix: string, t: Tile)
    ensures ParseFilename(prefix, Filename(prefix, t)) == Some(t)
  {
    var name := Filename(prefix, t);
    var middle := IntString(t.x) + "_" + IntString(t.y);
    assert name == prefix + middle + Extension;
    assert name[..|prefix|] == prefix;
    assert name[|name| - |Extension|..] == Extension;
    assert name[|prefix|..|name| - |Extension|] == middle;
    NoUnderscore(t.x);
    assert middle == IntString(t.x) + ['_'] + IntString(t.y);
    SplitOnceUnique(middle, '_', IntString(t.x), IntString(t.y));
    IntStringRoundTrip(t.x);
    IntStringRoundTrip(t.y);
  }

  /** Distinct tiles never share a cache file. */
  lemma FilenameInjective(prefix: string, t: Tile, u: Tile)
    ensures Filename(prefix, t) == Filename(prefix, u) <==> t == u
  {
    FilenameRoundTrip(prefix, t);
    FilenameRoundTrip(prefix, u);
  }

  /** The two sources' caches never clash, even when they share a directory. */
  lemma SourcesDisjoint(t: Tile, u: Tile)
    ensures MapyczFilename(t) != CykloFilename(u)
  {
    assert MapyczFilename(t)[0] == 'm';
    assert CykloFilename(u)[0] == 't';
  }
}
