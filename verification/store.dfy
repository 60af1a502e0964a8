/** The mirror database: the four tables the checker keeps between runs,
    as sequences of rows in table order. */
module Store {
  import opened Results

  /** A row of `catalog`: one index file read in full (`done`) or being read,
      with the modification time and size it had when read and the number
      of entries its parser returned. */
  datatype CatalogRow = CatalogRow(id: nat, filename: string, timestamp: int, size: int, done: bool, count: Option<int>)

  /** A row of `package`: one file an index lists, under the index's id. */
  datatype PackageRow = PackageRow(catalogId: nat, filename: string, size: Option<int>, hash: Option<string>)

  /** A row of `pool`: a file found under the pool, relative to its root. */
  datatype PoolRow = PoolRow(filename: string, size: int)

  /** A row of `pool_scanned`: when the pool at `filename` was last scanned. */
  datatype ScanRow = ScanRow(filename: string, timestamp: int)

  /** The database. `lastId` is the largest catalog id ever handed out (the
      autoincrement counter): a new catalog row gets the next one. */
  datatype Db = Db(catalog: seq<CatalogRow>, package: seq<PackageRow>, pool: seq<PoolRow>, poolScanned: seq<ScanRow>, lastId: nat)

  predicate HasCatalog(cats: seq<CatalogRow>, id: nat) {
    exists c :: c in cats && c.id == id
  }

  /** What the checker's own updates keep true: catalog ids are distinct,
      positive and at most the counter; rows sharing an id or an index file
      are the same row; every package row belongs to a catalog row. */
  predicate Valid(db: Db) {
    (forall c, d :: c in db.catalog && d in db.catalog && (c.id == d.id || c.filename == d.filename) ==> c == d)
    && (forall c :: c in db.catalog ==> 0 < c.id <= db.lastId)
    && (forall p :: p in db.package ==> HasCatalog(db.catalog, p.catalogId))
  }

  /** The empty database of a first run. */
  const Empty := Db([], [], [], [], 0)

  lemma {:induction false} EmptyValid()
    ensures Valid(Empty)
  {
  }

  /** `select ... from catalog where filename=?` then `fetchone()`: the first
      row for that file, if any. */
  function Lookup(cats: seq<CatalogRow>, filename: string): (r: Option<CatalogRow>)
    ensures r.Some? ==> r.value in cats && r.value.filename == filename
    ensures r.None? ==> forall c :: c in cats ==> c.filename != filename
    decreases |cats|
  {
    if |cats| == 0 then None
    else if cats[0].filename == filename then Some(cats[0])
    else Lookup(cats[1..], filename)
  }

  /** `delete from catalog where catalog_id=?`. */
  function DeleteCatalog(cats: seq<CatalogRow>, id: nat): (r: seq<CatalogRow>)
    ensures forall c :: c in r <==> c in cats && c.id != id
    ensures |r| <= |cats|
    decreases |cats|
  {
    if |cats| == 0 then []
    else if cats[0].id == id then DeleteCatalog(cats[1..], id)
    else [cats[0]] + DeleteCatalog(cats[1..], id)
  }

  /** `delete from package where catalog_id=?`. */
  function DeletePackages(pkgs: seq<PackageRow>, id: nat): (r: seq<PackageRow>)
    ensures forall p :: p in r <==> p in pkgs && p.catalogId != id
    decreases |pkgs|
  {
    if |pkgs| == 0 then []
    else if pkgs[0].catalogId == id then DeletePackages(pkgs[1..], id)
    else [pkgs[0]] + DeletePackages(pkgs[1..], id)
  }
}
