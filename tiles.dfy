/**
 * The adaptive tile pyramid of scripts/geotiff2mbtiles.py (geotiff_to_mbtiles):
 * a breadth-first frontier over zoom levels in which only visible tiles are
 * stored, and only visible tiles pass their four quad-tree children on to the
 * next level. Visibility (reprojection plus the alpha test), the initial
 * cover and PNG encoding are parameters.
 */
module TilePyramid {
  import opened Text
  import opened Seqs

  /** A quad-tree tile: column x, row y counted from the top, zoom z (mercantile's Tile). */
  datatype Tile = Tile(x: int, y: int, z: nat)

  /** A row key of the tiles table: (zoom_level, tile_column, tile_row). */
  type Key = (int, int, int)

  /** An encoded PNG image; its bytes are not modelled. */
  type Blob = seq<bv8>

  function Pow2(z: nat): (p: nat)
    ensures 1 <= p
  {
    if z == 0 then 1 else 2 * Pow2(z - 1)
  }

  /** The tile lies on the 2^z x 2^z grid of its zoom. */
  predicate InRange(t: Tile) {
    0 <= t.x < Pow2(t.z) && 0 <= t.y < Pow2(t.z)
  }

  /** The tile one zoom level up that contains t. */
  function Parent(t: Tile): Tile
    requires t.z > 0
  {
    Tile(t.x / 2, t.y / 2, t.z - 1)
  }

  /** mercantile.children: the four quadrants of t, one zoom level down. */
  function Children(t: Tile): (cs: seq<Tile>)
    ensures |cs| == 4
    ensures forall c :: c in cs ==> c.z == t.z + 1 && Parent(c) == t
    ensures InRange(t) ==> forall c :: c in cs ==> InRange(c)
  {
    [Tile(2 * t.x, 2 * t.y, t.z + 1), Tile(2 * t.x + 1, 2 * t.y, t.z + 1),
     Tile(2 * t.x + 1, 2 * t.y + 1, t.z + 1), Tile(2 * t.x, 2 * t.y + 1, t.z + 1)]
  }

  /** The children are exactly the tiles one level down whose parent is t, each listed once. */
  lemma ChildrenAreQuadrants(t: Tile, c: Tile)
    ensures c in Children(t) <==> c.z == t.z + 1 && Parent(c) == t
    ensures forall i, j :: 0 <= i < j < 4 ==> Children(t)[i] != Children(t)[j]
  {
    if c.z == t.z + 1 && Parent(c) == t {
      assert c.x == 2 * t.x || c.x == 2 * t.x + 1;
      assert c.y == 2 * t.y || c.y == 2 * t.y + 1;
    }
  }

  /** The stored row of tile row y at zoom z: TMS counts rows from the bottom. */
  function TmsRow(z: nat, y: int): int {
    Pow2(z) - y - 1
  }

  lemma TmsRowFlip(z: nat, y: int)
    ensures TmsRow(z, TmsRow(z, y)) == y
    ensures 0 <= y < Pow2(z) <==> 0 <= TmsRow(z, y) < Pow2(z)
  {
  }

  /** The key a tile is stored under. */
  function TileKey(t: Tile): Key {
    (t.z, t.x, TmsRow(t.z, t.y))
  }

  lemma TileKeyInjective(t1: Tile, t2: Tile)
    ensures TileKey(t1) == TileKey(t2) ==> t1 == t2
  {
    TmsRowFlip(t1.z, t1.y);
    TmsRowFlip(t2.z, t2.y);
  }

  predicate Distinct(ts: seq<Tile>) {
    forall i, j :: 0 <= i < j < |ts| ==> ts[i] != ts[j]
  }

  predicate AllAtZoom(ts: seq<Tile>, z: nat) {
    forall t :: t in ts ==> t.z == z
  }

  predicate AllInRange(ts: seq<Tile>) {
    forall t :: t in ts ==> InRange(t)
  }

  /** The next frontier built from one level: the children of its visible tiles, in order. */
  function VisibleChildren(level: seq<Tile>, visible: Tile -> bool): seq<Tile>
    decreases |level|
  {
    if level == [] then []
    else
      var last := level[|level| - 1];
      VisibleChildren(level[..|level| - 1], visible) + (if visible(last) then Children(last) else [])
  }

  /**
   * Every tile the conversion examines, level by level, from a frontier at
   * zoom z: the frontier itself, then (below max_zoom, and while the next
   * level is not empty) what its visible tiles' children lead to.
   */
  function Examined(frontier: seq<Tile>, z: nat, maxZoom: nat, visible: Tile -> bool): (e: seq<Tile>)
    requires z <= maxZoom
    decreases maxZoom - z
  {
    var next := VisibleChildren(frontier, visible);
    frontier + (if z < maxZoom && next != [] then Examined(next, z + 1, maxZoom, visible) else [])
  }

  /** The rows the conversion writes for a sequence of examined tiles, later writes replacing earlier ones. */
  function Stored(ts: seq<Tile>, visible: Tile -> bool, encode: Tile -> Blob): (m: map<Key, Blob>)
    decreases |ts|
  {
    if ts == [] then map[]
    else
      var last := ts[|ts| - 1];
      var m := Stored(ts[..|ts| - 1], visible, encode);
      if visible(last) then m[TileKey(last) := encode(last)] else m
  }

  lemma {:induction false} VisibleChildrenFacts(level: seq<Tile>, z: nat, visible: Tile -> bool)
    requires AllAtZoom(level, z)
    ensures forall c :: c in VisibleChildren(level, visible) ==>
      c.z == z + 1 && Parent(c) in level && visible(Parent(c))
    ensures AllInRange(level) ==> AllInRange(VisibleChildren(level, visible))
    decreases |level|
  {
    if level != [] {
      var init, last := level[..|level| - 1], level[|level| - 1];
      assert forall t :: t in init ==> t in level;
      VisibleChildrenFacts(init, z, visible);
    }
  }

  /**
   * Every examined tile lies at a zoom in [z, max_zoom], on the grid when the
   * starting frontier is, and at zoom z it is a tile of the starting frontier.
   */
  lemma {:induction false} ExaminedZooms(frontier: seq<Tile>, z: nat, maxZoom: nat, visible: Tile -> bool)
    requires z <= maxZoom && AllAtZoom(frontier, z)
    ensures forall t :: t in Examined(frontier, z, maxZoom, visible) ==> z <= t.z <= maxZoom
    ensures forall t :: t in Examined(frontier, z, maxZoom, visible) && t.z == z ==> t in frontier
    ensures AllInRange(frontier) ==> AllInRange(Examined(frontier, z, maxZoom, visible))
    decreases maxZoom - z
  {
    var next := VisibleChildren(frontier, visible);
    VisibleChildrenFacts(frontier, z, visible);
    if z < maxZoom && next != [] {
      ExaminedZooms(next, z + 1, maxZoom, visible);
      assert Examined(frontier, z, maxZoom, visible) == frontier + Examined(next, z + 1, maxZoom, visible);
    } else {
      assert Examined(frontier, z, maxZoom, visible) == frontier;
    }
  }

  /** Every examined tile above the starting zoom has a parent that was examined and found visible. */
  lemma {:induction false} ExaminedParents(frontier: seq<Tile>, z: nat, maxZoom: nat, visible: Tile -> bool)
    requires z <= maxZoom && AllAtZoom(frontier, z)
    ensures forall t :: t in Examined(frontier, z, maxZoom, visible) && t.z > z ==>
      Parent(t) in Examined(frontier, z, maxZoom, visible) && visible(Parent(t))
    decreases maxZoom - z
  {
    var next := VisibleChildren(frontier, visible);
    var e := Examined(frontier, z, maxZoom, visible);
    if z < maxZoom && next != [] {
      var rest := Examined(next, z + 1, maxZoom, visible);
      VisibleChildrenFacts(frontier, z, visible);
      ExaminedParents(next, z + 1, maxZoom, visible);
      ExaminedZooms(next, z + 1, maxZoom, visible);
      assert e == frontier + rest;
      forall t | t in e && t.z > z
        ensures Parent(t) in e && visible(Parent(t))
      {
        assert t in rest;
        if t.z == z + 1 {
          assert t in next;
        } else {
          assert Parent(t) in rest;
        }
      }
    } else {
      assert e == frontier;
    }
  }

  /** The ancestor of t at zoom level `level`. */
  function AncestorAt(t: Tile, level: nat): Tile
    requires level <= t.z
    decreases t.z
  {
    if t.z == level then t else AncestorAt(Parent(t), level)
  }

  /**
   * Pruning: no descendant of an examined invisible tile is ever examined. In
   * particular none of an invisible tile's four children is.
   */
  lemma {:induction false} NoDescendantOfInvisible(frontier: seq<Tile>, z: nat, maxZoom: nat,
                                                     visible: Tile -> bool, u: Tile, t: Tile)
    requires z <= maxZoom && AllAtZoom(frontier, z)
    requires u in Examined(frontier, z, maxZoom, visible) && !visible(u)
    requires t in Examined(frontier, z, maxZoom, visible) && t.z > u.z
    ensures AncestorAt(t, u.z) != u
    decreases t.z - u.z
  {
    ExaminedZooms(frontier, z, maxZoom, visible);
    ExaminedParents(frontier, z, maxZoom, visible);
    var p := Parent(t);
    assert p in Examined(frontier, z, maxZoom, visible);
    if p.z > u.z {
      NoDescendantOfInvisible(frontier, z, maxZoom, visible, u, p);
    }
  }

  lemma {:induction false} DistinctAppend(a: seq<Tile>, b: seq<Tile>)
    requires Distinct(a) && Distinct(b)
    requires forall t :: t in a ==> t !in b
    ensures Distinct(a + b)
  {
    forall i, j | 0 <= i < j < |a + b|
      ensures (a + b)[i] != (a + b)[j]
    {
      if j < |a| {
        assert (a + b)[i] == a[i] && (a + b)[j] == a[j];
      } else if i < |a| {
        assert (a + b)[i] == a[i] && (a + b)[j] == b[j - |a|];
        assert a[i] in a;
      } else {
        assert (a + b)[i] == b[i - |a|] && (a + b)[j] == b[j - |a|];
      }
    }
  }

  lemma {:induction false} VisibleChildrenDistinct(level: seq<Tile>, z: nat, visible: Tile -> bool)
    requires AllAtZoom(level, z) && Distinct(level)
    ensures Distinct(VisibleChildren(level, visible))
    decreases |level|
  {
    if level != [] {
      var init, last := level[..|level| - 1], level[|level| - 1];
      assert forall t :: t in init ==> t in level;
      VisibleChildrenDistinct(init, z, visible);
      VisibleChildrenFacts(init, z, visible);
      if visible(last) {
        ChildrenAreQuadrants(last, last);
        forall i | 0 <= i < |init|
          ensures init[i] != last
        {
          assert init[i] == level[i];
        }
        assert last !in init;
        forall c | c in VisibleChildren(init, visible)
          ensures c !in Children(last)
        {
          assert Parent(c) in init;
        }
        DistinctAppend(VisibleChildren(init, visible), Children(last));
      } else {
        assert VisibleChildren(level, visible) == VisibleChildren(init, visible);
      }
    }
  }

  /** A frontier without repeats leads to no tile being examined twice. */
  lemma {:induction false} ExaminedDistinct(frontier: seq<Tile>, z: nat, maxZoom: nat, visible: Tile -> bool)
    requires z <= maxZoom && AllAtZoom(frontier, z) && Distinct(frontier)
    ensures Distinct(Examined(frontier, z, maxZoom, visible))
    decreases maxZoom - z
  {
    var next := VisibleChildren(frontier, visible);
    if z < maxZoom && next != [] {
      VisibleChildrenFacts(frontier, z, visible);
      VisibleChildrenDistinct(frontier, z, visible);
      ExaminedDistinct(next, z + 1, maxZoom, visible);
      ExaminedZooms(next, z + 1, maxZoom, visible);
      DistinctAppend(frontier, Examined(next, z + 1, maxZoom, visible));
    }
  }

  /** The keys written are exactly the keys of the visible tiles among those examined. */
  lemma {:induction false} StoredKeys(ts: seq<Tile>, visible: Tile -> bool, encode: Tile -> Blob)
    ensures forall i :: 0 <= i < |ts| && visible(ts[i]) ==> TileKey(ts[i]) in Stored(ts, visible, encode)
    ensures forall k :: k in Stored(ts, visible, encode) ==>
      exists i :: 0 <= i < |ts| && visible(ts[i]) && TileKey(ts[i]) == k
    decreases |ts|
  {
    if ts != [] {
      var init := ts[..|ts| - 1];
      StoredKeys(init, visible, encode);
      forall k | k in Stored(ts, visible, encode)
        ensures exists i :: 0 <= i < |ts| && visible(ts[i]) && TileKey(ts[i]) == k
      {
        if k in Stored(init, visible, encode) {
          var i :| 0 <= i < |init| && visible(init[i]) && TileKey(init[i]) == k;
          assert ts[i] == init[i];
        } else {
          assert TileKey(ts[|ts| - 1]) == k;
        }
      }
    }
  }

  /** Each written key holds the encoding of the one tile that has that key. */
  lemma {:induction false} StoredValues(ts: seq<Tile>, visible: Tile -> bool, encode: Tile -> Blob, i: nat)
    requires i < |ts| && visible(ts[i])
    ensures TileKey(ts[i]) in Stored(ts, visible, encode)
    ensures Stored(ts, visible, encode)[TileKey(ts[i])] == encode(ts[i])
    decreases |ts|
  {
    var init, last := ts[..|ts| - 1], ts[|ts| - 1];
    if i == |ts| - 1 {
    } else {
      StoredValues(init, visible, encode, i);
      if visible(last) && TileKey(last) == TileKey(ts[i]) {
        TileKeyInjective(last, ts[i]);
      }
    }
  }

  /** Without repeated tiles, one row is written per visible tile. */
  lemma {:induction false} StoredSize(ts: seq<Tile>, visible: Tile -> bool, encode: Tile -> Blob)
    requires Distinct(ts)
    ensures |Stored(ts, visible, encode).Keys| == Count(ts, visible)
    decreases |ts|
  {
    if ts != [] {
      var init, last := ts[..|ts| - 1], ts[|ts| - 1];
      assert init + [last] == ts;
      CountSnoc(init, last, visible);
      StoredSize(init, visible, encode);
      if visible(last) {
        StoredKeys(init, visible, encode);
        forall i | 0 <= i < |init|
          ensures TileKey(init[i]) != TileKey(last)
        {
          TileKeyInjective(init[i], last);
          assert init[i] == ts[i];
        }
        assert TileKey(last) !in Stored(init, visible, encode);
        assert Stored(ts, visible, encode).Keys == Stored(init, visible, encode).Keys + {TileKey(last)};
      }
    }
  }

  /** A field with no visible tile examines only the starting frontier and writes no row. */
  lemma NothingVisible(frontier: seq<Tile>, z: nat, maxZoom: nat, visible: Tile -> bool, encode: Tile -> Blob)
    requires z <= maxZoom && forall t :: !visible(t)
    ensures Examined(frontier, z, maxZoom, visible) == frontier
    ensures Stored(frontier, visible, encode) == map[]
  {
    NoVisibleChildren(frontier, visible);
    NoneStored(frontier, visible, encode);
  }

  lemma {:induction false} NoVisibleChildren(level: seq<Tile>, visible: Tile -> bool)
    requires forall t :: !visible(t)
    ensures VisibleChildren(level, visible) == []
    decreases |level|
  {
    if level != [] {
      NoVisibleChildren(level[..|level| - 1], visible);
    }
  }

  lemma {:induction false} NoneStored(ts: seq<Tile>, visible: Tile -> bool, encode: Tile -> Blob)
    requires forall t :: !visible(t)
    ensures Stored(ts, visible, encode) == map[]
    decreases |ts|
  {
    if ts != [] {
      NoneStored(ts[..|ts| - 1], visible, encode);
    }
  }

  /** One row of the metadata table: (name, value). */
  type Row = (string, string)

  /** The six metadata rows a conversion writes, in order. */
  function MetadataRows(geotiffPath: string, boundsText: string, minZoom: nat, maxZoom: nat): (rows: seq<Row>)
    ensures |rows| == 6
    ensures forall i, j :: 0 <= i < j < |rows| ==> rows[i].0 != rows[j].0
  {
    [("name", Basename(geotiffPath)), ("format", "png"), ("bounds", boundsText),
     ("minzoom", NatToString(minZoom)), ("maxzoom", NatToString(maxZoom)), ("type", "baselayer")]
  }

  const MetadataNames: set<string> := {"name", "format", "bounds", "minzoom", "maxzoom", "type"}

  /** INSERT OR REPLACE of rows, in order, into a table keyed by name. */
  function Upsert(m: map<string, string>, rows: seq<Row>): map<string, string>
    decreases |rows|
  {
    if rows == [] then m else Upsert(m[rows[0].0 := rows[0].1], rows[1..])
  }

  /** Upserting rows overrides the table with the rows' own name-to-value map, the last row for a name winning. */
  lemma {:induction false} UpsertOverrides(m: map<string, string>, rows: seq<Row>)
    ensures Upsert(m, rows) == m + Upsert(map[], rows)
    decreases |rows|
  {
    if rows != [] {
      var k, v := rows[0].0, rows[0].1;
      UpsertOverrides(m[k := v], rows[1..]);
      UpsertOverrides(map[k := v], rows[1..]);
      assert map[][k := v] == map[k := v];
      assert m[k := v] == m + map[k := v];
    }
  }

  /** A second conversion with the same arguments leaves the metadata table as the first left it. */
  lemma UpsertIdempotent(m: map<string, string>, rows: seq<Row>)
    ensures Upsert(Upsert(m, rows), rows) == Upsert(m, rows)
  {
    UpsertOverrides(m, rows);
    UpsertOverrides(Upsert(m, rows), rows);
  }

  /** With distinct names, upserting rows sets each row's name to its value and keeps every other entry. */
  lemma {:induction false} UpsertFacts(m: map<string, string>, rows: seq<Row>)
    requires forall i, j :: 0 <= i < j < |rows| ==> rows[i].0 != rows[j].0
    ensures forall k :: k in Upsert(m, rows) <==> k in m || exists i :: 0 <= i < |rows| && rows[i].0 == k
    ensures forall i :: 0 <= i < |rows| ==> Upsert(m, rows)[rows[i].0] == rows[i].1
    ensures forall k :: k in m && (forall i :: 0 <= i < |rows| ==> rows[i].0 != k) ==> Upsert(m, rows)[k] == m[k]
    decreases |rows|
  {
    if rows != [] {
      var k0, v0, rest := rows[0].0, rows[0].1, rows[1..];
      UpsertFacts(m[k0 := v0], rest);
      assert Upsert(m, rows) == Upsert(m[k0 := v0], rest);
      forall k
        ensures k in Upsert(m, rows) <==> k in m || exists i :: 0 <= i < |rows| && rows[i].0 == k
      {
        if k in Upsert(m, rows) && k !in m && k != k0 {
          var i :| 0 <= i < |rest| && rest[i].0 == k;
          assert rows[i + 1].0 == k;
        }
        if exists i :: 0 <= i < |rows| && rows[i].0 == k {
          var i :| 0 <= i < |rows| && rows[i].0 == k;
          if i > 0 {
            assert rest[i - 1].0 == k;
          }
        }
      }
      forall i | 0 <= i < |rows|
        ensures rows[i].0 in Upsert(m, rows) && Upsert(m, rows)[rows[i].0] == rows[i].1
      {
        if i == 0 {
          forall j | 0 <= j < |rest|
            ensures rest[j].0 != k0
          {
            assert rest[j] == rows[j + 1];
          }
        } else {
          assert rows[i] == rest[i - 1];
        }
      }
      forall k | k in m && (forall i :: 0 <= i < |rows| ==> rows[i].0 != k)
        ensures k in Upsert(m, rows) && Upsert(m, rows)[k] == m[k]
      {
        assert rows[0].0 != k;
        forall j | 0 <= j < |rest|
          ensures rest[j].0 != k
        {
          assert rest[j] == rows[j + 1];
        }
      }
    }
  }

  /** After a conversion the table maps each of the six names to its value and keeps every other entry. */
  lemma ConversionMetadata(m: map<string, string>, geotiffPath: string, boundsText: string, minZoom: nat, maxZoom: nat)
    ensures var r := Upsert(m, MetadataRows(geotiffPath, boundsText, minZoom, maxZoom));
      && (forall k :: k in r <==> k in m || k in MetadataNames)
      && r["name"] == Basename(geotiffPath) && r["format"] == "png" && r["bounds"] == boundsText
      && r["minzoom"] == NatToString(minZoom) && r["maxzoom"] == NatToString(maxZoom)
      && r["type"] == "baselayer"
      && forall k :: k in m && k !in MetadataNames ==> r[k] == m[k]
  {
    var rows := MetadataRows(geotiffPath, boundsText, minZoom, maxZoom);
    UpsertFacts(m, rows);
    assert rows[0].0 == "name" && rows[1].0 == "format" && rows[2].0 == "bounds";
    assert rows[3].0 == "minzoom" && rows[4].0 == "maxzoom" && rows[5].0 == "type";
    assert forall k :: k in MetadataNames <==> exists i :: 0 <= i < |rows| && rows[i].0 == k;
  }

  /**
   * The metadata table as the source creates it has no key, so INSERT OR
   * REPLACE never replaces: every conversion appends its six rows.
   */
  function MetadataTableAsWritten(table: seq<Row>, rows: seq<Row>): (r: seq<Row>)
    ensures |r| == |table| + |rows| && r[..|table|] == table
    ensures Count(r, IsNameRow) == Count(table, IsNameRow) + Count(rows, IsNameRow)
  {
    CountAppend(table, rows, IsNameRow);
    table + rows
  }

  predicate IsNameRow(r: Row) {
    r.0 == "name"
  }

  /** Helper: the six rows of a conversion hold exactly one "name" row. */
  lemma NameRowOnce(geotiffPath: string, boundsText: string, minZoom: nat, maxZoom: nat)
    ensures Count(MetadataRows(geotiffPath, boundsText, minZoom, maxZoom), IsNameRow) == 1
  {
    var rows := MetadataRows(geotiffPath, boundsText, minZoom, maxZoom);
    assert IsNameRow(rows[0]);
    forall i | 0 <= i < |rows[1..]|
      ensures !IsNameRow(rows[1..][i])
    {
      assert rows[1..][i] == rows[i + 1];
    }
    CountNone(rows[1..], IsNameRow);
  }

  /** The metadata table as written after k conversions with the same rows. */
  function Reconverted(table: seq<Row>, rows: seq<Row>, k: nat): seq<Row> {
    if k == 0 then table else MetadataTableAsWritten(Reconverted(table, rows, k - 1), rows)
  }

  /**
   * As written, every run over the same file adds six more metadata rows, one
   * of them another "name" row: after k runs the table has 6k rows more than
   * before, k more named "name", and the j-th run's "name" row sits at 6j.
   */
  lemma {:induction false} ReconversionDuplicatesMetadata(table: seq<Row>, geotiffPath: string, boundsText: string,
                                                        minZoom: nat, maxZoom: nat, k: nat)
    ensures var t := Reconverted(table, MetadataRows(geotiffPath, boundsText, minZoom, maxZoom), k);
      && |t| == |table| + 6 * k
      && t[..|table|] == table
      && Count(t, IsNameRow) == Count(table, IsNameRow) + k
      && forall j :: 0 <= j < k ==> t[|table| + 6 * j] == ("name", Basename(geotiffPath))
  {
    var rows := MetadataRows(geotiffPath, boundsText, minZoom, maxZoom);
    if k > 0 {
      ReconversionDuplicatesMetadata(table, geotiffPath, boundsText, minZoom, maxZoom, k - 1);
      var prev := Reconverted(table, rows, k - 1);
      var t := Reconverted(table, rows, k);
      assert t == prev + rows;
      CountAppend(prev, rows, IsNameRow);
      NameRowOnce(geotiffPath, boundsText, minZoom, maxZoom);
      assert t[..|table|] == prev[..|table|];
      forall j | 0 <= j < k
        ensures t[|table| + 6 * j] == ("name", Basename(geotiffPath))
      {
        if j < k - 1 {
          assert t[|table| + 6 * j] == prev[|table| + 6 * j];
        }
      }
    }
  }

  /** An MBTiles database: the tiles table (unique on its key) and the metadata table keyed by name. */
  class MbtilesDb {
    var tiles: map<Key, Blob>
    var metadata: map<string, string>

    /** Open a database, existing or new, with the rows it already holds. */
    constructor (existingTiles: map<Key, Blob>, existingMetadata: map<string, string>)
      ensures tiles == existingTiles && metadata == existingMetadata
    {
      tiles := existingTiles;
      metadata := existingMetadata;
    }

    /** INSERT OR REPLACE INTO tiles: the unique index on the key makes a second write replace the first. */
    method InsertOrReplaceTile(key: Key, blob: Blob)
      modifies this
      ensures tiles == old(tiles)[key := blob] && metadata == old(metadata)
    {
      tiles := tiles[key := blob];
    }

    /** executemany of INSERT OR REPLACE INTO metadata, one row after the other. */
    method InsertOrReplaceMetadata(rows: seq<Row>)
      modifies this
      ensures metadata == Upsert(old(metadata), rows) && tiles == old(tiles)
    {
      var i := 0;
      while i < |rows|
        invariant 0 <= i <= |rows|
        invariant Upsert(metadata, rows[i..]) == Upsert(old(metadata), rows) && tiles == old(tiles)
      {
        assert rows[i..][1..] == rows[i + 1..];
        metadata := metadata[rows[i].0 := rows[i].1];
        i := i + 1;
      }
    }
  }

  /** Writing the rows of ts after those of pre is writing the rows of pre + ts. */
  lemma {:induction false} StoredAppend(pre: seq<Tile>, ts: seq<Tile>, visible: Tile -> bool, encode: Tile -> Blob)
    ensures Stored(pre + ts, visible, encode) == Stored(pre, visible, encode) + Stored(ts, visible, encode)
    decreases |ts|
  {
    if ts == [] {
      assert pre + ts == pre;
    } else {
      var init, last := ts[..|ts| - 1], ts[|ts| - 1];
      assert (pre + ts)[..|pre + ts| - 1] == pre + init;
      StoredAppend(pre, init, visible, encode);
    }
  }

  /** The rows and counts after one more level are those of the longer examined sequence. */
  lemma LevelWritten(start: map<Key, Blob>, pre: seq<Tile>, level: seq<Tile>, visible: Tile -> bool, encode: Tile -> Blob)
    ensures (start + Stored(pre, visible, encode)) + Stored(level, visible, encode)
      == start + Stored(pre + level, visible, encode)
    ensures Count(pre + level, visible) == Count(pre, visible) + Count(level, visible)
  {
    StoredAppend(pre, level, visible, encode);
    CountAppend(pre, level, visible);
  }

  /** Helper: the next frontier lies one zoom level down. */
  lemma NextLevelAtZoom(level: seq<Tile>, z: nat, visible: Tile -> bool)
    requires AllAtZoom(level, z)
    ensures AllAtZoom(VisibleChildren(level, visible), z + 1)
  {
    VisibleChildrenFacts(level, z, visible);
  }

  /** One level of the walk: its tiles are examined, then the walk goes on from their visible children. */
  lemma ExaminedStep(pre: seq<Tile>, frontier: seq<Tile>, z: nat, maxZoom: nat, visible: Tile -> bool,
                     done: seq<Tile>, next: seq<Tile>, z1: nat)
    requires z < maxZoom && next == VisibleChildren(frontier, visible) && next != []
    requires done == pre + frontier && z1 == z + 1
    ensures pre + Examined(frontier, z, maxZoom, visible) == done + Examined(next, z1, maxZoom, visible)
  {
    var rest := Examined(next, z1, maxZoom, visible);
    assert Examined(frontier, z, maxZoom, visible) == frontier + rest;
  }

  const DefaultMinZoom: nat := 0
  const DefaultMaxZoom: nat := 14

  /** What one more tile of a level adds to the rows written, the count and the next frontier. */
  lemma PrefixStep(start: map<Key, Blob>, level: seq<Tile>, i: nat, visible: Tile -> bool, encode: Tile -> Blob)
    requires i < |level|
    ensures start + Stored(level[..i + 1], visible, encode)
      == if visible(level[i]) then (start + Stored(level[..i], visible, encode))[TileKey(level[i]) := encode(level[i])]
         else start + Stored(level[..i], visible, encode)
    ensures Count(level[..i + 1], visible) == Count(level[..i], visible) + (if visible(level[i]) then 1 else 0)
    ensures VisibleChildren(level[..i + 1], visible)
      == VisibleChildren(level[..i], visible) + (if visible(level[i]) then Children(level[i]) else [])
  {
    assert level[..i + 1] == level[..i] + [level[i]];
    assert level[..i + 1][..i] == level[..i];
    CountSnoc(level[..i], level[i], visible);
  }

  /**
   * One pass of the zoom loop over the tiles of one level: store every
   * visible tile under its TMS key and, below max_zoom, collect its children.
   */
  method ProcessLevel(db: MbtilesDb, level: seq<Tile>, zoom: nat, maxZoom: nat,
                      visible: Tile -> bool, encode: Tile -> Blob)
    returns (next: seq<Tile>, stored: nat, skipped: nat)
    requires AllAtZoom(level, zoom)
    modifies db
    ensures db.metadata == old(db.metadata)
    ensures db.tiles == old(db.tiles) + Stored(level, visible, encode)
    ensures stored == Count(level, visible) && stored + skipped == |level|
    ensures next == if zoom < maxZoom then VisibleChildren(level, visible) else []
  {
    next, stored, skipped := [], 0, 0;
    var i := 0;
    while i < |level|
      invariant 0 <= i <= |level|
      invariant next == if zoom < maxZoom then VisibleChildren(level[..i], visible) else []
      invariant db.metadata == old(db.metadata)
      invariant db.tiles == old(db.tiles) + Stored(level[..i], visible, encode)
      invariant stored == Count(level[..i], visible) && stored + skipped == i
    {
      var tile := level[i];
      PrefixStep(old(db.tiles), level, i, visible, encode);
      if visible(tile) {
        db.InsertOrReplaceTile((zoom, tile.x, TmsRow(zoom, tile.y)), encode(tile));
        stored := stored + 1;
        if zoom < maxZoom {
          next := next + Children(tile);
        }
      } else {
        skipped := skipped + 1;
      }
      i := i + 1;
    }
    assert level[..|level|] == level;
  }

  /**
   * geotiff_to_mbtiles after the colour gradient: write the metadata, then
   * walk the zoom levels from min_zoom, storing every visible tile under its
   * TMS key and passing only visible tiles' children on, until max_zoom or an
   * empty level. `cover` is the cover of the bounds at min_zoom, `visible`
   * the reprojection-and-alpha test and `encode` the PNG encoding.
   */
  method GeotiffToMbtiles(db: MbtilesDb, geotiffPath: string, boundsText: string, minZoom: nat, maxZoom: nat,
                          cover: seq<Tile>, visible: Tile -> bool, encode: Tile -> Blob)
    returns (tileCount: nat, skippedCount: nat, ghost examined: seq<Tile>)
    requires AllAtZoom(cover, minZoom)
    modifies db
    ensures db.metadata == Upsert(old(db.metadata), MetadataRows(geotiffPath, boundsText, minZoom, maxZoom))
    ensures examined == if minZoom <= maxZoom then Examined(cover, minZoom, maxZoom, visible) else []
    ensures db.tiles == old(db.tiles) + Stored(examined, visible, encode)
    ensures tileCount == Count(examined, visible) && tileCount + skippedCount == |examined|
  {
    db.InsertOrReplaceMetadata(MetadataRows(geotiffPath, boundsText, minZoom, maxZoom));
    tileCount, skippedCount, examined := 0, 0, [];
    if minZoom > maxZoom {
      // The zoom loop's condition fails at once.
      return;
    }
    ghost var meta, total := db.metadata, Examined(cover, minZoom, maxZoom, visible);
    var currentZoom := minZoom;
    var active := cover;
    while currentZoom <= maxZoom
      invariant currentZoom <= maxZoom && AllAtZoom(active, currentZoom)
      invariant examined + Examined(active, currentZoom, maxZoom, visible) == total
      invariant db.metadata == meta
      invariant db.tiles == old(db.tiles) + Stored(examined, visible, encode)
      invariant tileCount == Count(examined, visible) && tileCount + skippedCount == |examined|
      decreases maxZoom - currentZoom
    {
      ghost var z, pre := currentZoom, examined;
      var next, stored, skipped := ProcessLevel(db, active, currentZoom, maxZoom, visible, encode);
      LevelWritten(old(db.tiles), pre, active, visible, encode);
      tileCount, skippedCount := tileCount + stored, skippedCount + skipped;
      examined := examined + active;
      currentZoom := currentZoom + 1;
      if currentZoom <= maxZoom && next != [] {
        NextLevelAtZoom(active, z, visible);
        ExaminedStep(pre, active, z, maxZoom, visible, examined, next, currentZoom);
        active := next;
      } else {
        assert Examined(active, z, maxZoom, visible) == active;
        break;
      }
    }
  }
}
