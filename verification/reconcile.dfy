/** Comparing the catalogs with the pool: the files the active catalogs
    list that the pool lacks or holds at the wrong size, and the pool files
    no catalog lists. */
module Reconcile {
  import opened Results
  import opened Text
  import opened StringOrder
  import opened Store

  /** Where `find_missing` looks up sizes: the listing `set_pool` read, or,
      when the pool was not read, the disk itself (`disk` maps each existing
      path to its size) under the pool root. */
  datatype PoolView = PoolView(root: string, files: Option<map<string, int>>, disk: map<string, int>)

  /** The size of a listed file in the pool, -1 when it is not there. */
  function PoolSize(v: PoolView, filename: string): int {
    match v.files
    case Some(files) => if filename in files then files[filename] else -1
    case None =>
      var path := PathJoin(v.root, filename);
      if path in v.disk then v.disk[path] else -1
  }

  /** The package row's file is not in the pool. */
  predicate Absent(v: PoolView, p: PackageRow) {
    PoolSize(v, p.filename) == -1
  }

  /** The package row's file is in the pool at another size than the index
      gives (a missing size never matches). */
  predicate WrongSize(v: PoolView, p: PackageRow) {
    !Absent(v, p) && p.size != Some(PoolSize(v, p.filename))
  }

  /** A path to fetch: some active package row lists it and its file is
      absent or the wrong size. */
  predicate MissingPath(db: Db, active: seq<nat>, v: PoolView, f: string) {
    exists p :: p in db.package && p.catalogId in active && p.filename == f && (Absent(v, p) || WrongSize(v, p))
  }

  /** A catalog reported as listing missing files: it lists a file that is
      absent (a file of the wrong size does not count). */
  predicate ListsAbsent(db: Db, active: seq<nat>, v: PoolView, id: nat) {
    exists p :: p in db.package && p.catalogId in active && p.catalogId == id && Absent(v, p)
  }

  /** What `find_missing` leaves: the sorted paths to fetch, each once
      (`self.urls`), the catalogs that list an absent file, and the count it
      returns. */
  datatype Missing = Missing(urls: seq<string>, listedIn: set<nat>, count: nat)

  /** `find_missing`: it asserts that a pool root is set, then walks the
      package rows of the active catalogs. */
  method FindMissing(db: Db, active: seq<nat>, v: PoolView) returns (r: Result<Missing, AssertionError>)
    ensures r.Failure? <==> v.root == ""
    ensures r.Success? ==> StrictlySorted(r.value.urls)
    ensures r.Success? ==> forall f :: f in r.value.urls <==> MissingPath(db, active, v, f)
    ensures r.Success? ==> forall id :: id in r.value.listedIn <==> ListsAbsent(db, active, v, id)
    ensures r.Success? ==> r.value.count == |r.value.urls|
  {
    if v.root == "" {
      return Failure(AssertionError);
    }
    var urls := [];
    var listedIn := {};
    var k := 0;
    while k < |db.package|
      invariant 0 <= k <= |db.package|
      invariant StrictlySorted(urls)
      invariant forall f :: f in urls <==> exists p :: p in db.package[..k] && p.catalogId in active && p.filename == f && (Absent(v, p) || WrongSize(v, p))
      invariant forall id :: id in listedIn <==> exists p :: p in db.package[..k] && p.catalogId in active && p.catalogId == id && Absent(v, p)
    {
      var p := db.package[k];
      assert db.package[..k + 1] == db.package[..k] + [p];
      if p.catalogId in active {
        var size := PoolSize(v, p.filename);
        if size == -1 {
          urls := InsertSorted(urls, p.filename);
          listedIn := listedIn + {p.catalogId};
        } else if Some(size) != p.size {
          urls := InsertSorted(urls, p.filename);
        }
      }
      k := k + 1;
    }
    assert db.package[..k] == db.package;
    r := Success(Missing(urls, listedIn, |urls|));
  }

  /** Any index file lists the path. */
  predicate Packaged(db: Db, f: string) {
    exists p :: p in db.package && p.filename == f
  }

  /** The pool rows whose file no catalog lists, active or not, in table
      order. */
  function Excess(pool: seq<PoolRow>, db: Db): seq<PoolRow>
    decreases |pool|
  {
    if |pool| == 0 then []
    else if Packaged(db, pool[0].filename) then Excess(pool[1..], db)
    else [pool[0]] + Excess(pool[1..], db)
  }

  /** The excess rows are exactly the pool rows whose file no package row
      names. */
  lemma {:induction false} ExcessMembers(pool: seq<PoolRow>, db: Db)
    ensures forall row :: row in Excess(pool, db) <==> row in pool && !Packaged(db, row.filename)
    decreases |pool|
  {
    if |pool| > 0 {
      ExcessMembers(pool[1..], db);
      assert pool == [pool[0]] + pool[1..];
    }
  }

  function SizeSum(rows: seq<PoolRow>): int
    decreases |rows|
  {
    if |rows| == 0 then 0 else rows[0].size + SizeSum(rows[1..])
  }

  lemma {:induction false} SizeSumAppend(rows: seq<PoolRow>, row: PoolRow)
    ensures SizeSum(rows + [row]) == SizeSum(rows) + row.size
  {
    if |rows| > 0 {
      assert (rows + [row])[1..] == rows[1..] + [row];
      SizeSumAppend(rows[1..], row);
    }
  }

  lemma {:induction false} ExcessAppend(pool: seq<PoolRow>, row: PoolRow, db: Db)
    ensures Packaged(db, row.filename) ==> Excess(pool + [row], db) == Excess(pool, db)
    ensures !Packaged(db, row.filename) ==> Excess(pool + [row], db) == Excess(pool, db) + [row]
    decreases |pool|
  {
    if |pool| > 0 {
      assert (pool + [row])[1..] == pool[1..] + [row];
      ExcessAppend(pool[1..], row, db);
    } else {
      assert pool + [row] == [row];
    }
  }

  /** What `find_excess` reports: the number of pool files no catalog lists
      and their total size, and the paths written out. */
  datatype ExcessReport = ExcessReport(count: nat, totalSize: int, paths: seq<string>)

  /** The report on the given rows: one line and one count per row. */
  function Report(rows: seq<PoolRow>): (r: ExcessReport)
    ensures r.count == |r.paths| == |rows|
    ensures forall k :: 0 <= k < |rows| ==> r.paths[k] == rows[k].filename
  {
    ExcessReport(|rows|, SizeSum(rows), seq(|rows|, k requires 0 <= k < |rows| => rows[k].filename))
  }

  lemma {:induction false} ReportAppend(rows: seq<PoolRow>, row: PoolRow)
    ensures Report(rows + [row]) == ExcessReport(Report(rows).count + 1, Report(rows).totalSize + row.size, Report(rows).paths + [row.filename])
  {
    SizeSumAppend(rows, row);
  }

  /** `find_excess`: without a pool listing nothing is searched and the count
      is 0; otherwise every `pool` row whose file no package row names is
      counted, written out and its size added. */
  method FindExcess(db: Db, files: Option<map<string, int>>) returns (r: ExcessReport)
    ensures files.None? ==> r == ExcessReport(0, 0, [])
    ensures files.Some? ==> r.count == |r.paths| == |Excess(db.pool, db)| && r.totalSize == SizeSum(Excess(db.pool, db))
    ensures files.Some? ==> forall k :: 0 <= k < |r.paths| ==> r.paths[k] == Excess(db.pool, db)[k].filename
  {
    r := ExcessReport(0, 0, []);
    if files.Some? {
      var k := 0;
      while k < |db.pool|
        invariant 0 <= k <= |db.pool|
        invariant r == Report(Excess(db.pool[..k], db))
      {
        var row := db.pool[k];
        assert db.pool[..k + 1] == db.pool[..k] + [row];
        ExcessAppend(db.pool[..k], row, db);
        if !Packaged(db, row.filename) {
          ReportAppend(Excess(db.pool[..k], db), row);
          r := ExcessReport(r.count + 1, r.totalSize + row.size, r.paths + [row.filename]);
        }
        k := k + 1;
      }
      assert db.pool[..k] == db.pool;
    }
  }

  /** No path is both to fetch and in excess: what is fetched is listed by a
      catalog, what is in excess by none. */
  lemma {:induction false} MissingNotExcess(db: Db, active: seq<nat>, v: PoolView, f: string)
    requires MissingPath(db, active, v, f)
    ensures forall row :: row in Excess(db.pool, db) ==> row.filename != f
  {
    var p :| p in db.package && p.catalogId in active && p.filename == f && (Absent(v, p) || WrongSize(v, p));
    assert Packaged(db, f);
    ExcessMembers(db.pool, db);
  }
}
