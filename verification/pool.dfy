/** The pool cache: the marker file that records when each pool was
    scanned, and the choice `set_pool` makes between loading the cached
    listing and scanning the pool again. */
module Pool {
  import opened Results
  import opened Store

  /** The marker file: for each pool root, the time of the scan the cached
      listing comes from. A missing file reads as the empty map. */
  type Markers = map<string, int>

  /** `get_pool_marker`: the pool's recorded time, or the current time when
      none is recorded. */
  function GetPoolMarker(markers: Markers, pool: string, now: int): int {
    if pool in markers then markers[pool] else now
  }

  /** `set_pool_marker`: a recorded time is kept; an absent one, or a
      recorded 0, counts as unset and the current time is recorded. Returns
      the pool's time and the marker file's new contents. */
  function SetPoolMarker(markers: Markers, pool: string, now: int): (r: (int, Markers))
    ensures pool in r.1 && r.1[pool] == r.0
    ensures forall p :: p != pool ==> (p in r.1 <==> p in markers) && (p in markers ==> r.1[p] == markers[p])
    ensures pool in markers && markers[pool] != 0 ==> r == (markers[pool], markers)
    ensures !(pool in markers && markers[pool] != 0) ==> r.0 == now
  {
    var t := if pool in markers then markers[pool] else 0;
    if t == 0 then (now, markers[pool := now]) else (t, markers)
  }

  /** Once set, a marker reads back as the time `set_pool_marker` returned,
      whatever the clock says later. */
  lemma {:induction false} MarkerRoundTrip(markers: Markers, pool: string, now: int, later: int)
    ensures GetPoolMarker(SetPoolMarker(markers, pool, now).1, pool, later) == SetPoolMarker(markers, pool, now).0
  {
  }

  /** Setting a marker a second time changes nothing, as long as the first
      time recorded is not 0. */
  lemma {:induction false} SetPoolMarkerTwice(markers: Markers, pool: string, now: int, later: int)
    requires SetPoolMarker(markers, pool, now).0 != 0
    ensures var (t, m) := SetPoolMarker(markers, pool, now);
      SetPoolMarker(m, pool, later) == (t, m)
  {
  }

  /** The time of the last `pool_scanned` row for the pool, if any. */
  function LastScan(rows: seq<ScanRow>, pool: string): (r: Option<int>)
    ensures r.Some? <==> exists k :: 0 <= k < |rows| && rows[k].filename == pool
    decreases |rows|
  {
    if |rows| == 0 then None
    else
      var last := rows[|rows| - 1];
      if last.filename == pool then Some(last.timestamp) else LastScan(rows[..|rows| - 1], pool)
  }

  /** The cached listing may be loaded: the `pool` table is not empty and
      the pool's last recorded scan is no older than its marker. */
  predicate Fresh(db: Db, markers: Markers, pool: string, now: int) {
    |db.pool| > 0 && LastScan(db.poolScanned, pool).Some? && GetPoolMarker(markers, pool, now) <= LastScan(db.poolScanned, pool).value
  }

  lemma {:induction false} LastScanAppend(rows: seq<ScanRow>, row: ScanRow, pool: string)
    ensures LastScan(rows + [row], pool) == if row.filename == pool then Some(row.timestamp) else LastScan(rows, pool)
  {
    assert (rows + [row])[..|rows|] == rows;
  }

  /** The test in `set_pool`: each `pool_scanned` row for the pool, in
      turn, decides again, so the last one has the final word. */
  method CanLoad(db: Db, markers: Markers, pool: string, now: int) returns (can: bool)
    ensures can <==> Fresh(db, markers, pool, now)
  {
    can := false;
    if |db.pool| > 0 {
      var k := 0;
      while k < |db.poolScanned|
        invariant 0 <= k <= |db.poolScanned|
        invariant LastScan(db.poolScanned[..k], pool).None? ==> !can
        invariant LastScan(db.poolScanned[..k], pool).Some? ==> (can <==> GetPoolMarker(markers, pool, now) <= LastScan(db.poolScanned[..k], pool).value)
      {
        var row := db.poolScanned[k];
        assert db.poolScanned[..k + 1] == db.poolScanned[..k] + [row];
        LastScanAppend(db.poolScanned[..k], row, pool);
        if row.filename == pool {
          can := GetPoolMarker(markers, pool, now) <= row.timestamp;
        }
        k := k + 1;
      }
      assert db.poolScanned[..k] == db.poolScanned;
    }
  }

  /** Row `k` is the last row for file `f`. */
  predicate LastRowFor(rows: seq<PoolRow>, f: string, k: int) {
    0 <= k < |rows| && rows[k].filename == f && forall j :: k < j < |rows| ==> rows[j].filename != f
  }

  /** Adding a row keeps every other file's last row, and the new row is
      the last for its own file. */
  lemma {:induction false} LastRowsExtend(rows: seq<PoolRow>, init: map<string, int>)
    requires |rows| > 0
    requires var p := rows[..|rows| - 1];
      forall f :: f in init ==> exists k :: LastRowFor(p, f, k) && p[k].size == init[f]
    ensures var last := rows[|rows| - 1];
      var r := init[last.filename := last.size];
      forall f :: f in r ==> exists k :: LastRowFor(rows, f, k) && rows[k].size == r[f]
  {
    var p := rows[..|rows| - 1];
    var last := rows[|rows| - 1];
    var r := init[last.filename := last.size];
    forall f | f in r
      ensures exists k :: LastRowFor(rows, f, k) && rows[k].size == r[f]
    {
      if f == last.filename {
        assert LastRowFor(rows, f, |rows| - 1);
      } else {
        var k :| LastRowFor(p, f, k) && p[k].size == init[f];
        assert rows[k] == p[k];
        assert forall j :: k < j < |rows| - 1 ==> rows[j] == p[j];
        assert LastRowFor(rows, f, k);
      }
    }
  }

  /** The listing read from rows: each file's size, a later row for the same
      file overriding an earlier one. */
  function FilesOf(rows: seq<PoolRow>): (r: map<string, int>)
    ensures forall f :: f in r <==> exists k :: 0 <= k < |rows| && rows[k].filename == f
    ensures forall f :: f in r ==> PoolRow(f, r[f]) in rows
    ensures forall f :: f in r ==> exists k :: LastRowFor(rows, f, k) && rows[k].size == r[f]
    decreases |rows|
  {
    if |rows| == 0 then map[]
    else
      var last := rows[|rows| - 1];
      var init := FilesOf(rows[..|rows| - 1]);
      assert forall k :: 0 <= k < |rows| - 1 ==> rows[..|rows| - 1][k] == rows[k];
      LastRowsExtend(rows, init);
      init[last.filename := last.size]
  }

  /** What `set_pool` leaves: the database, the marker file and the listing
      (`pool_files`, `None` when the pool is not read). */
  datatype PoolState = PoolState(db: Db, markers: Markers, files: Option<map<string, int>>)

  /** `set_pool`. Without `scandir` nothing is read. A fresh cache is
      loaded as it is. Otherwise both pool tables are cleared, `pool` is
      filled with the files `scanned` under the pool (paths relative to its
      root, with sizes), and one `pool_scanned` row records the pool's
      marker, set if it was unset. */
  function SetPool(db: Db, markers: Markers, pool: string, scandir: bool, scanned: seq<PoolRow>, now: int): (r: PoolState)
    ensures !scandir ==> r == PoolState(db, markers, None)
    // Loading reads the cached listing verbatim and writes nothing.
    ensures scandir && Fresh(db, markers, pool, now) ==>
      r.db == db && r.markers == markers && r.files == Some(FilesOf(db.pool))
    // A rescan replaces `pool` by exactly the files found, records the
    // marker as `set_pool_marker` leaves it, leaves a single `pool_scanned`
    // row for this pool carrying that marker, keeps the catalogs, and lists
    // exactly the files found, each at a size found for it.
    ensures scandir && !Fresh(db, markers, pool, now) ==>
      && r.db.pool == scanned
      && r.markers == SetPoolMarker(markers, pool, now).1
      && pool in r.markers && r.db.poolScanned == [ScanRow(pool, r.markers[pool])]
      && r.db.catalog == db.catalog && r.db.package == db.package && r.db.lastId == db.lastId
      && r.files == Some(FilesOf(scanned))
      && (forall f :: f in r.files.value <==> exists k :: 0 <= k < |scanned| && scanned[k].filename == f)
      && (forall f :: f in r.files.value ==> PoolRow(f, r.files.value[f]) in scanned)
  {
    if !scandir then PoolState(db, markers, None)
    else if Fresh(db, markers, pool, now) then PoolState(db, markers, Some(FilesOf(db.pool)))
    else
      var (t, markers') := SetPoolMarker(markers, pool, now);
      PoolState(db.(pool := scanned, poolScanned := [ScanRow(pool, t)]), markers', Some(FilesOf(scanned)))
  }

  /** Right after a scan that found files, the next `set_pool` on the same
      pool loads the cache, whatever the clock says then. */
  lemma {:induction false} RescanThenLoad(db: Db, markers: Markers, pool: string, scanned: seq<PoolRow>, now: int, later: int)
    requires !Fresh(db, markers, pool, now) && |scanned| > 0
    ensures var st := SetPool(db, markers, pool, true, scanned, now);
      Fresh(st.db, st.markers, pool, later)
  {
    var st := SetPool(db, markers, pool, true, scanned, now);
    assert LastScan(st.db.poolScanned, pool) == Some(st.markers[pool]);
  }
}
