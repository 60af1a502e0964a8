/** The index files: which are read and with which grammar, the
    architecture filter, and the catalog cache decision that either reuses
    an index's rows or replaces them with a fresh reading. */
module Catalog {
  import opened Results
  import opened Text
  import opened IndexLines
  import opened Store
  import Packages
  import Sources

  // The architecture filter.

  /** The fragments that mark an index of an architecture the mirror does
      not carry. `-kfreebsd` covers both kfreebsd ports and `-mips` all
      three mips ones. */
  const Fragments: seq<string> := ["-armhf", "-armel", "-arm64", "-hurd-i386", "-kfreebsd", "-mips", "-powerpc", "-ppc64el", "-s390x"]

  /** `_unwanted`: the fragments tried in turn with `find`. */
  function Unwanted(filename: string): bool {
    if Find(filename, "-armhf") != -1 then true
    else if Find(filename, "-armel") != -1 then true
    else if Find(filename, "-arm64") != -1 then true
    else if Find(filename, "-hurd-i386") != -1 then true
    else if Find(filename, "-kfreebsd") != -1 then true
    else if Find(filename, "-mips") != -1 then true
    else if Find(filename, "-powerpc") != -1 then true
    else if Find(filename, "-ppc64el") != -1 then true
    else if Find(filename, "-s390x") != -1 then true
    else false
  }

  /** A file is unwanted exactly when its name contains one of the
      fragments. */
  lemma {:induction false} UnwantedIff(filename: string)
    ensures Unwanted(filename) <==> exists i :: 0 <= i < |Fragments| && Contains(filename, Fragments[i])
  {
    forall i | 0 <= i < |Fragments| && Contains(filename, Fragments[i])
      ensures Unwanted(filename)
    {
      if i == 0 {
        assert Find(filename, "-armhf") != -1;
      } else if i == 1 {
        assert Find(filename, "-armel") != -1;
      } else if i == 2 {
        assert Find(filename, "-arm64") != -1;
      } else if i == 3 {
        assert Find(filename, "-hurd-i386") != -1;
      } else if i == 4 {
        assert Find(filename, "-kfreebsd") != -1;
      } else if i == 5 {
        assert Find(filename, "-mips") != -1;
      } else if i == 6 {
        assert Find(filename, "-powerpc") != -1;
      } else if i == 7 {
        assert Find(filename, "-ppc64el") != -1;
      } else if i == 8 {
        assert Find(filename, "-s390x") != -1;
      }
    }
    if Unwanted(filename) {
      if Find(filename, "-armhf") != -1 {
        assert Contains(filename, Fragments[0]);
      } else if Find(filename, "-armel") != -1 {
        assert Contains(filename, Fragments[1]);
      } else if Find(filename, "-arm64") != -1 {
        assert Contains(filename, Fragments[2]);
      } else if Find(filename, "-hurd-i386") != -1 {
        assert Contains(filename, Fragments[3]);
      } else if Find(filename, "-kfreebsd") != -1 {
        assert Contains(filename, Fragments[4]);
      } else if Find(filename, "-mips") != -1 {
        assert Contains(filename, Fragments[5]);
      } else if Find(filename, "-powerpc") != -1 {
        assert Contains(filename, Fragments[6]);
      } else if Find(filename, "-ppc64el") != -1 {
        assert Contains(filename, Fragments[7]);
      } else if Find(filename, "-s390x") != -1 {
        assert Contains(filename, Fragments[8]);
      }
    }
  }

  // Choosing the grammar from the file name.

  /** `os.path.basename`: what follows the last `/`. */
  function Basename(p: string): (r: string)
    ensures '/' !in r
    ensures EndsWith(p, r)
  {
    var i := RFindChar(p, '/');
    p[i + 1..]
  }

  /** A dot at `dot` starts an extension unless only dots precede it in the
      last path component (a leading dot names a hidden file). */
  predicate ExtensionAt(p: string, dot: int) {
    var sep := RFindChar(p, '/');
    sep < dot < |p| && exists k :: sep < k < dot && p[k] != '.'
  }

  /** The last component of `p` holds a dot preceded, within that
      component, by some character other than a dot. */
  predicate HasExtension(p: string) {
    exists k, d :: 0 <= k < d < |p| && p[d] == '.' && p[k] != '.' && '/' !in p[k..]
  }

  /** The test `splitext` makes on the last dot is `HasExtension`. */
  lemma {:induction false} LastDotExtension(p: string)
    ensures (RFindChar(p, '.') >= 0 && ExtensionAt(p, RFindChar(p, '.'))) <==> HasExtension(p)
  {
    var dot := RFindChar(p, '.');
    var sep := RFindChar(p, '/');
    if dot >= 0 && ExtensionAt(p, dot) {
      var k :| sep < k < dot && p[k] != '.';
      forall i | k <= i < |p|
        ensures p[i] != '/'
      {
        if sep >= 0 {
          assert p[i] == p[sep + 1..][i - sep - 1];
        }
      }
      assert p[dot] == '.';
    }
    if HasExtension(p) {
      var k, d :| 0 <= k < d < |p| && p[d] == '.' && p[k] != '.' && '/' !in p[k..];
      assert sep < k < dot && p[k] != '.';
    }
  }

  /** `os.path.splitext`: the last extension of the last component, with its
      dot, and what precedes it. */
  function SplitExt(p: string): (r: (string, string))
    ensures r.0 + r.1 == p
    ensures r.1 == "" || (r.1[0] == '.' && '.' !in r.1[1..] && '/' !in r.1)
    ensures r.1 != "" <==> HasExtension(p)
  {
    LastDotExtension(p);
    var dot := RFindChar(p, '.');
    if dot >= 0 && ExtensionAt(p, dot) then
      assert p[dot..][1..] == p[dot + 1..];
      assert p[..dot] + p[dot..] == p;
      (p[..dot], p[dot..])
    else (p, "")
  }

  /** The two index grammars. */
  datatype Grammar = PackagesList | SourcesList

  /** The parser `parse` picks: by the base name, `Packages` or `Sources`,
      and only for a plain or gzip-compressed file (`.xz` is not read). */
  function GrammarOf(filename: string): Option<Grammar> {
    var (name, ext) := SplitExt(Basename(filename));
    var func := if name == "Packages" then Some(PackagesList) else if name == "Sources" then Some(SourcesList) else None;
    if ext == ".gz" || ext == "" then func else None
  }

  lemma {:induction false} SplitExtPlain(b: string)
    requires '.' !in b
    ensures SplitExt(b) == (b, "")
  {
  }

  /** `rfind` finds an occurrence with none after it. */
  lemma {:induction false} RFindCharLast(s: string, c: char, i: int)
    requires 0 <= i < |s| && s[i] == c && c !in s[i + 1..]
    ensures RFindChar(s, c) == i
    decreases |s|
  {
    if i < |s| - 1 {
      assert s[|s| - 1] in s[i + 1..];
      var t := s[..|s| - 1];
      assert t[i + 1..] == s[i + 1..|s| - 1];
      RFindCharLast(t, c, i);
    }
  }

  lemma {:induction false} SplitExtGz(n: string)
    requires '.' !in n && '/' !in n && |n| > 0
    ensures SplitExt(n + ".gz") == (n, ".gz")
  {
    var p := n + ".gz";
    assert p[|n|] == '.';
    assert p[|n| + 1..] == "gz";
    RFindCharLast(p, '.', |n|);
    assert '/' !in p;
    assert p[0] == n[0] != '.';
    assert ExtensionAt(p, |n|);
    assert p[..|n|] == n;
  }

  /** What `GrammarOf` reads off a base name: the stem names the grammar
      and the extension is empty or `.gz`. */
  lemma {:induction false} NameWithExt(b: string, name: string)
    requires SplitExt(b).0 == name && (SplitExt(b).1 == "" || SplitExt(b).1 == ".gz")
    ensures b == name || b == name + ".gz"
  {
    assert b == SplitExt(b).0 + SplitExt(b).1;
  }

  /** A grammar is chosen only for a base name that is the grammar's name,
      bare or with `.gz`. */
  lemma {:induction false} GrammarOfOnly(filename: string)
    ensures GrammarOf(filename) == Some(PackagesList) ==> Basename(filename) in {"Packages", "Packages.gz"}
    ensures GrammarOf(filename) == Some(SourcesList) ==> Basename(filename) in {"Sources", "Sources.gz"}
  {
    var b := Basename(filename);
    var (name, ext) := SplitExt(b);
    if GrammarOf(filename).Some? {
      assert ext == "" || ext == ".gz";
      if name == "Packages" {
        NameWithExt(b, "Packages");
        assert "Packages" + ".gz" == "Packages.gz";
      } else {
        assert name == "Sources";
        NameWithExt(b, "Sources");
        assert "Sources" + ".gz" == "Sources.gz";
      }
    }
  }

  lemma {:induction false} GrammarOfPackages(filename: string)
    requires Basename(filename) in {"Packages", "Packages.gz"}
    ensures GrammarOf(filename) == Some(PackagesList)
  {
    var b := Basename(filename);
    if b == "Packages" {
      SplitExtPlain(b);
    } else {
      assert b == "Packages" + ".gz";
      SplitExtGz("Packages");
    }
  }

  lemma {:induction false} GrammarOfSources(filename: string)
    requires Basename(filename) in {"Sources", "Sources.gz"}
    ensures GrammarOf(filename) == Some(SourcesList)
  {
    var b := Basename(filename);
    if b == "Sources" {
      SplitExtPlain(b);
    } else {
      assert b == "Sources" + ".gz";
      SplitExtGz("Sources");
    }
  }

  /** The files `parse` reads are exactly those whose base name is one of
      `Packages`, `Packages.gz`, `Sources`, `Sources.gz`. */
  lemma {:induction false} GrammarOfNames(filename: string)
    ensures GrammarOf(filename) == Some(PackagesList) <==> Basename(filename) in {"Packages", "Packages.gz"}
    ensures GrammarOf(filename) == Some(SourcesList) <==> Basename(filename) in {"Sources", "Sources.gz"}
    ensures GrammarOf(filename).Some? <==> Basename(filename) in {"Packages", "Packages.gz", "Sources", "Sources.gz"}
  {
    GrammarOfOnly(filename);
    if Basename(filename) in {"Packages", "Packages.gz"} {
      GrammarOfPackages(filename);
    }
    if Basename(filename) in {"Sources", "Sources.gz"} {
      GrammarOfSources(filename);
    }
  }

  /** The grammar's parser on the file's lines. */
  function Read(g: Grammar, lines: seq<string>): (r: Result<Parsed, ParseError>)
    ensures r.Success? ==> r.value.count == |r.value.entries|
  {
    match g
    case PackagesList => Packages.ParsePackages(lines)
    case SourcesList => Sources.ParseSources(lines)
  }

  // The catalog cache.

  /** What opening and `stat` give for an index file: its (decompressed)
      lines, modification time and size on disk. */
  datatype IndexFile = IndexFile(lines: seq<string>, mtime: int, size: int)

  /** The part of the checker's state `parse` works on: the database and the
      ids of the catalogs of this run (`active_catalog`). */
  datatype Mirror = Mirror(db: Db, active: seq<nat>)

  /** A file `parse` leaves alone: not an index it reads, empty, or of an
      unwanted architecture. */
  predicate Ignored(filename: string, file: IndexFile) {
    GrammarOf(filename).None? || |file.lines| == 0 || Unwanted(filename)
  }

  /** A catalog row that still describes the file: same time, same size,
      read in full. */
  predicate UpToDate(row: CatalogRow, file: IndexFile) {
    row.timestamp == file.mtime && row.size == file.size && row.done
  }

  /** The `package` rows the parser's inserter writes for catalog `id`. */
  function PackageRows(id: nat, entries: seq<Entry>): (r: seq<PackageRow>)
    ensures |r| == |entries|
    ensures forall p :: p in r ==> p.catalogId == id
  {
    seq(|entries|, k requires 0 <= k < |entries| => PackageRow(id, entries[k].path, entries[k].size, entries[k].hash))
  }

  /** Drops the stale row of an index and its packages, then adds the new
      reading under the next id: the row ends read in full with the parser's
      count. */
  function Reload(db: Db, stale: Option<CatalogRow>, filename: string, file: IndexFile, parsed: Parsed): Db {
    var id := db.lastId + 1;
    var cats := if stale.Some? then DeleteCatalog(db.catalog, stale.value.id) else db.catalog;
    var pkgs := if stale.Some? then DeletePackages(db.package, stale.value.id) else db.package;
    db.(catalog := cats + [CatalogRow(id, filename, file.mtime, file.size, true, Some(parsed.count))],
        package := pkgs + PackageRows(id, parsed.entries),
        lastId := id)
  }

  /** What `parse` does with an index it reads, given what its parser
      returns: an index whose row is up to date only has that row's id made
      active; any other is read afresh, and a parser exception aborts the
      run with nothing committed. */
  function Apply(m: Mirror, filename: string, file: IndexFile, read: Result<Parsed, ParseError>): (r: Result<Mirror, ParseError>)
    ensures r.Success? ==> |r.value.active| == |m.active| + 1 && r.value.active[..|m.active|] == m.active
    ensures r.Failure? <==> read.Failure? && !(Lookup(m.db.catalog, filename).Some? && UpToDate(Lookup(m.db.catalog, filename).value, file))
  {
    var row := Lookup(m.db.catalog, filename);
    if row.Some? && UpToDate(row.value, file) then Success(Mirror(m.db, m.active + [row.value.id]))
    else
      var parsed :- read;
      Success(Mirror(Reload(m.db, row, filename, file, parsed), m.active + [m.db.lastId + 1]))
  }

  /** `parse`: an ignored file changes nothing; any other is read with its
      grammar's parser. */
  function Parse(m: Mirror, filename: string, file: IndexFile): (r: Result<Mirror, ParseError>)
    ensures Ignored(filename, file) ==> r == Success(m)
  {
    if Ignored(filename, file) then Success(m)
    else Apply(m, filename, file, Read(GrammarOf(filename).value, file.lines))
  }

  /** A cache hit: the database is untouched and the id of the index's
      existing row is made active. */
  lemma {:induction false} ApplyHit(m: Mirror, filename: string, file: IndexFile, read: Result<Parsed, ParseError>)
    requires Lookup(m.db.catalog, filename).Some? && UpToDate(Lookup(m.db.catalog, filename).value, file)
    ensures Apply(m, filename, file, read) == Success(Mirror(m.db, m.active + [Lookup(m.db.catalog, filename).value.id]))
  {
  }

  lemma {:induction false} LookupAppend(cats: seq<CatalogRow>, row: CatalogRow)
    requires forall c :: c in cats ==> c.filename != row.filename
    ensures Lookup(cats + [row], row.filename) == Some(row)
  {
    if |cats| > 0 {
      assert (cats + [row])[1..] == cats[1..] + [row];
      LookupAppend(cats[1..], row);
    } else {
      assert cats + [row] == [row];
    }
  }

  /** The catalog rows left once the stale row of an index is dropped. */
  function Kept(db: Db, filename: string): seq<CatalogRow> {
    var stale := Lookup(db.catalog, filename);
    if stale.Some? then DeleteCatalog(db.catalog, stale.value.id) else db.catalog
  }

  /** Under `Valid`, the only row for an index is the one `Lookup` finds, so
      deleting that row's id leaves none for the index, and every other row
      is kept. */
  lemma {:induction false} KeptRows(db: Db, filename: string)
    requires Valid(db)
    ensures forall c :: c in Kept(db, filename) <==> c in db.catalog && c.filename != filename
  {
  }

  lemma {:induction false} ReloadShape(m: Mirror, filename: string, file: IndexFile, parsed: Parsed)
    requires !(Lookup(m.db.catalog, filename).Some? && UpToDate(Lookup(m.db.catalog, filename).value, file))
    ensures var id := m.db.lastId + 1;
      Apply(m, filename, file, Success(parsed)) == Success(Mirror(
        m.db.(catalog := Kept(m.db, filename) + [CatalogRow(id, filename, file.mtime, file.size, true, Some(parsed.count))],
              package := (var stale := Lookup(m.db.catalog, filename); if stale.Some? then DeletePackages(m.db.package, stale.value.id) else m.db.package) + PackageRows(id, parsed.entries),
              lastId := id),
        m.active + [id]))
  {
  }

  /** A cache miss: the index's old row and all its packages are gone; one
      new row for the index, under an id never used before, is read in full
      with the parser's count; its packages are the parser's entries, in
      order, after every package kept; every other catalog row is kept, and
      so is every package of a kept catalog; the new id is made active. */
  lemma {:induction false} ApplyMiss(m: Mirror, filename: string, file: IndexFile, parsed: Parsed)
    requires Valid(m.db)
    requires !(Lookup(m.db.catalog, filename).Some? && UpToDate(Lookup(m.db.catalog, filename).value, file))
    requires parsed.count == |parsed.entries|
    ensures var m' := Apply(m, filename, file, Success(parsed)).value;
      var id := m.db.lastId + 1;
      && !HasCatalog(m.db.catalog, id)
      && Lookup(m'.db.catalog, filename) == Some(CatalogRow(id, filename, file.mtime, file.size, true, Some(|parsed.entries|)))
      && (forall c :: c in m'.db.catalog && c.filename != filename <==> c in m.db.catalog && c.filename != filename)
      && (forall p :: p in m'.db.package && p.catalogId == id <==> p in PackageRows(id, parsed.entries))
      && |m'.db.package| >= |parsed.entries|
      && m'.db.package[|m'.db.package| - |parsed.entries|..] == PackageRows(id, parsed.entries)
      && m'.db.pool == m.db.pool && m'.db.poolScanned == m.db.poolScanned && m'.db.lastId == id
      && (forall p :: p in m'.db.package && p.catalogId != id <==> p in m.db.package && HasCatalog(m'.db.catalog, p.catalogId))
      && m'.active == m.active + [id]
  {
    var id := m.db.lastId + 1;
    var row := CatalogRow(id, filename, file.mtime, file.size, true, Some(parsed.count));
    var cats := Kept(m.db, filename);
    ReloadShape(m, filename, file, parsed);
    KeptRows(m.db, filename);
    LookupAppend(cats, row);
    MissKeepsPackages(m, filename, file, parsed);
  }

  /** On a cache miss, a package row of another catalog survives exactly
      when its catalog row does. */
  lemma {:induction false} MissKeepsPackages(m: Mirror, filename: string, file: IndexFile, parsed: Parsed)
    requires Valid(m.db)
    requires !(Lookup(m.db.catalog, filename).Some? && UpToDate(Lookup(m.db.catalog, filename).value, file))
    ensures var m' := Apply(m, filename, file, Success(parsed)).value;
      forall p :: p in m'.db.package && p.catalogId != m.db.lastId + 1 <==> p in m.db.package && HasCatalog(m'.db.catalog, p.catalogId)
  {
    var id := m.db.lastId + 1;
    var cats := Kept(m.db, filename);
    ReloadShape(m, filename, file, parsed);
    var m' := Apply(m, filename, file, Success(parsed)).value;
    KeptRows(m.db, filename);
    forall p | p in m'.db.package && p.catalogId != id
      ensures p in m.db.package && HasCatalog(m'.db.catalog, p.catalogId)
    {
      var c :| c in m.db.catalog && c.id == p.catalogId;
      assert c in m'.db.catalog;
    }
    forall p | p in m.db.package && HasCatalog(m'.db.catalog, p.catalogId) && p.catalogId != id
      ensures p in m'.db.package
    {
      var c :| c in m'.db.catalog && c.id == p.catalogId;
      assert c in cats;
    }
  }

  /** Reading an index keeps the database's invariant. */
  lemma {:induction false} ApplyValid(m: Mirror, filename: string, file: IndexFile, read: Result<Parsed, ParseError>)
    requires Valid(m.db) && Apply(m, filename, file, read).Success?
    ensures Valid(Apply(m, filename, file, read).value.db)
  {
    if !(Lookup(m.db.catalog, filename).Some? && UpToDate(Lookup(m.db.catalog, filename).value, file)) {
      var parsed := read.value;
      var id := m.db.lastId + 1;
      var row := CatalogRow(id, filename, file.mtime, file.size, true, Some(parsed.count));
      ReloadShape(m, filename, file, parsed);
      var db' := Apply(m, filename, file, read).value.db;
      KeptRows(m.db, filename);
      forall p | p in db'.package
        ensures HasCatalog(db'.catalog, p.catalogId)
      {
        if p.catalogId == id {
          assert row in db'.catalog;
        } else {
          var c :| c in m.db.catalog && c.id == p.catalogId;
          assert c in db'.catalog;
        }
      }
    }
  }

  /** Reading an index a second time, unchanged, is a cache hit whatever the
      parser would return: the database stays as the first reading left it
      and the same id is made active again. */
  lemma {:induction false} ApplyTwice(m: Mirror, filename: string, file: IndexFile, read: Result<Parsed, ParseError>, again: Result<Parsed, ParseError>)
    requires Valid(m.db) && Apply(m, filename, file, read).Success?
    requires read.Success? ==> read.value.count == |read.value.entries|
    ensures var m1 := Apply(m, filename, file, read).value;
      Apply(m1, filename, file, again) == Success(Mirror(m1.db, m1.active + [m1.active[|m1.active| - 1]]))
  {
    if !(Lookup(m.db.catalog, filename).Some? && UpToDate(Lookup(m.db.catalog, filename).value, file)) {
      ApplyMiss(m, filename, file, read.value);
    }
  }

  /** `parse` raises exactly when it reads an index whose row is not up to
      date and the grammar's parser raises. */
  lemma {:induction false} ParseFails(m: Mirror, filename: string, file: IndexFile)
    ensures Parse(m, filename, file).Failure? <==>
      !Ignored(filename, file)
      && !(Lookup(m.db.catalog, filename).Some? && UpToDate(Lookup(m.db.catalog, filename).value, file))
      && Read(GrammarOf(filename).value, file.lines).Failure?
  {
  }

  /** `parse` keeps the database's invariant, and a file it does not ignore
      makes exactly one more catalog active. */
  lemma {:induction false} ParseValid(m: Mirror, filename: string, file: IndexFile)
    requires Valid(m.db)
    ensures Parse(m, filename, file).Success? ==> Valid(Parse(m, filename, file).value.db)
    ensures Parse(m, filename, file).Success? && !Ignored(filename, file) ==> |Parse(m, filename, file).value.active| == |m.active| + 1
  {
    if !Ignored(filename, file) && Parse(m, filename, file).Success? {
      ApplyValid(m, filename, file, Read(GrammarOf(filename).value, file.lines));
    }
  }

  /** `parse` is idempotent: reading the same unchanged file again leaves the
      database as it is. */
  lemma {:induction false} ParseTwice(m: Mirror, filename: string, file: IndexFile)
    requires Valid(m.db)
    ensures Parse(m, filename, file).Success? ==>
      var m1 := Parse(m, filename, file).value;
      && Parse(m1, filename, file).Success?
      && Parse(m1, filename, file).value.db == m1.db
  {
    if !Ignored(filename, file) && Parse(m, filename, file).Success? {
      var r := Read(GrammarOf(filename).value, file.lines);
      ApplyTwice(m, filename, file, r, r);
    }
  }

  // The catalogs of a run when the indexes are not read.

  /** `set_dists_db`: every catalog id of the database, each once, in table
      order. */
  method SetDistsDb(db: Db) returns (active: seq<nat>)
    ensures forall id :: id in active <==> HasCatalog(db.catalog, id)
    ensures forall i, j :: 0 <= i < j < |active| ==> active[i] != active[j]
  {
    active := [];
    var k := 0;
    while k < |db.catalog|
      invariant 0 <= k <= |db.catalog|
      invariant forall id :: id in active <==> exists c :: c in db.catalog[..k] && c.id == id
      invariant forall i, j :: 0 <= i < j < |active| ==> active[i] != active[j]
    {
      var id := db.catalog[k].id;
      assert db.catalog[..k + 1] == db.catalog[..k] + [db.catalog[k]];
      if id !in active {
        active := active + [id];
      }
      k := k + 1;
    }
    assert db.catalog[..k] == db.catalog;
  }
}
