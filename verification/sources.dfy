/** The source-list grammar (`Sources` files, `_sources`): records separated
    by blank lines; a record's `Directory:` field names where its files live
    and the indented lines after a `Checksums-Sha256:` header list them as
    `digest size name`. */
module Sources {
  import opened Results
  import opened Text
  import opened IndexLines

  /** One line of a file list, as `(name, size, digest)`. The size is kept
      as text together with its `int()` reading, which `finish()` uses when
      the record is closed. */
  datatype FileRef = FileRef(name: string, size: string, value: Option<int>, hash: string)

  /** The file a file-list line names, from its fields `digest size name`. */
  function FileRefOf(f: seq<string>): FileRef
    requires |f| >= 3
  {
    FileRef(f[2], f[1], PyInt(f[1]), f[0])
  }

  /** What a non-blank line is to the parser: an indented line (with the
      file it names when it has at least three space-separated fields), the
      `Checksums-Sha256:` header that opens a file list, a `Directory:` line
      (with its value), or anything else. */
  datatype Kind = Indent(line: string, ref: Option<FileRef>) | Header | Directory(value: string) | Other

  function KindOf(raw: string): Kind {
    var i := RStrip(raw);
    if |i| > 0 && (i[0] == ' ' || i[0] == '\t') then
      var f := Split(LStrip(i), ' ');
      Indent(i, if |f| >= 3 then Some(FileRefOf(f)) else None)
    else if i == "Checksums-Sha256:" then Header
    else if StartsWith(i, "Directory:") then Directory(LStrip(i[10..]))
    else Other
  }

  // The reading of a record from the kinds of its lines, first to last.

  /** After lines of kinds `ks`, the next indented line belongs to a file
      list: the last line that is not indented is the header. */
  predicate InFiles(ks: seq<Kind>)
    decreases |ks|
  {
    |ks| > 0 &&
    match ks[|ks| - 1]
    case Header => true
    case Indent(_, _) => InFiles(ks[..|ks| - 1])
    case _ => false
  }

  /** The value of the last `Directory:` line, or "" when none. */
  function DirectoryOf(ks: seq<Kind>): string
    decreases |ks|
  {
    if |ks| == 0 then ""
    else
      match ks[|ks| - 1]
      case Directory(v) => v
      case _ => DirectoryOf(ks[..|ks| - 1])
  }

  /** The files listed, in order: the indented lines inside a file list that
      have at least three fields. */
  function FileRefsOf(ks: seq<Kind>): seq<FileRef>
    decreases |ks|
  {
    if |ks| == 0 then []
    else
      var q := ks[..|ks| - 1];
      match ks[|ks| - 1]
      case Indent(_, ref) => FileRefsOf(q) + (if InFiles(q) && ref.Some? then [ref.value] else [])
      case _ => FileRefsOf(q)
  }

  /** A line of kind `k` after lines of kinds `ks` is short: inside a file
      list, with fewer than three fields. */
  predicate ShortAt(ks: seq<Kind>, k: Kind) {
    match k
    case Indent(_, ref) => InFiles(ks) && ref.None?
    case _ => false
  }

  /** Some line inside a file list has fewer than three fields. */
  predicate HasShortLine(ks: seq<Kind>)
    decreases |ks|
  {
    |ks| > 0 && (HasShortLine(ks[..|ks| - 1]) || ShortAt(ks[..|ks| - 1], ks[|ks| - 1]))
  }

  /** The parser's accumulators. */
  datatype SrcState = SrcState(inFiles: bool, directory: string, files: seq<FileRef>, out: seq<Entry>, nb: nat)

  const Start := SrcState(false, "", [], [], 0)

  /** The entries `finish()` inserts for one record's files, in order,
      stopping at the first size `int()` rejects. */
  function Emit(dir: string, files: seq<FileRef>): (r: Result<seq<Entry>, ParseError>)
    ensures r.Success? ==> |r.value| == |files|
    decreases |files|
  {
    if |files| == 0 then Success([])
    else
      match files[0].value
      case None => Failure(BadInteger(files[0].size))
      case Some(v) =>
        match Emit(dir, files[1..])
        case Failure(e) => Failure(e)
        case Success(rest) => Success([Entry(PathJoin(dir, files[0].name), Some(v), Some(files[0].hash))] + rest)
  }

  /** `finish()` then `reset()`: a record with a directory inserts its files;
      one without inserts nothing. */
  function Close(st: SrcState): (r: Result<SrcState, ParseError>)
    ensures r.Success? ==> !r.value.inFiles && r.value.directory == "" && r.value.files == []
    ensures r.Success? ==> r.value.nb - |r.value.out| == st.nb - |st.out|
  {
    if st.directory == "" then Success(SrcState(false, "", [], st.out, st.nb))
    else
      match Emit(st.directory, st.files)
      case Failure(e) => Failure(e)
      case Success(es) => Success(SrcState(false, "", [], st.out + es, st.nb + |es|))
  }

  /** A non-blank line `i` (already right-stripped): a file-list line while
      in a list, else the end of the list, then the header and `Directory:`
      tests. */
  function Scan(st: SrcState, i: string): (r: Result<SrcState, ParseError>)
    requires i != ""
    ensures r.Success? ==> r.value.out == st.out && r.value.nb == st.nb
    ensures r.Failure? <==> st.inFiles && (i[0] == ' ' || i[0] == '\t') && |Split(LStrip(i), ' ')| < 3
  {
    if st.inFiles && (i[0] == ' ' || i[0] == '\t') then
      var f := Split(LStrip(i), ' ');
      if |f| < 3 then Failure(ShortFileLine(i))
      else Success(st.(files := st.files + [FileRefOf(f)]))
    else if i == "Checksums-Sha256:" then Success(st.(inFiles := true))
    else if StartsWith(i, "Directory:") then Success(st.(inFiles := false, directory := LStrip(i[10..])))
    else Success(st.(inFiles := false))
  }

  /** `Scan` read by the kind of the line. */
  function ScanKind(st: SrcState, k: Kind): Result<SrcState, ParseError> {
    match k
    case Indent(i, ref) =>
      if !st.inFiles then Success(st)
      else if ref.None? then Failure(ShortFileLine(i))
      else Success(st.(files := st.files + [ref.value]))
    case Header => Success(st.(inFiles := true))
    case Directory(v) => Success(st.(inFiles := false, directory := v))
    case Other => Success(st.(inFiles := false))
  }

  /** One iteration of the loop over the lines. A blank line closes the
      record; the tests that follow it in the loop body then see a reset
      state and an empty line, and do nothing. */
  function Step(st: SrcState, raw: string): Result<SrcState, ParseError> {
    var i := RStrip(raw);
    if i == "" then Close(st) else Scan(st, i)
  }

  /** The loop over `lines` from state `st`, then the final `finish()`. */
  function Run(lines: seq<string>, st: SrcState): (r: Result<SrcState, ParseError>)
    ensures r.Success? && st.nb == |st.out| ==> r.value.nb == |r.value.out|
    decreases |lines|
  {
    if |lines| == 0 then Close(st)
    else
      match Step(st, lines[0])
      case Failure(e) => Failure(e)
      case Success(st') => Run(lines[1..], st')
  }

  /** `_sources`: the entries handed to the inserter, in order, and the
      count it returns. */
  function ParseSources(lines: seq<string>): (r: Result<Parsed, ParseError>)
    ensures r.Success? ==> r.value.count == |r.value.entries|
  {
    var st :- Run(lines, Start);
    Success(Parsed(st.out, st.nb))
  }

  // Reference: what a whole record contributes.

  /** Every listed size of a record with a directory is an integer. */
  predicate SizesParse(files: seq<FileRef>) {
    forall k :: 0 <= k < |files| ==> files[k].value.Some?
  }

  /** A record is read without error when no file-list line is short and,
      if it has a directory, every size is an integer. */
  predicate RecordOk(ks: seq<Kind>) {
    !HasShortLine(ks) && (DirectoryOf(ks) != "" ==> SizesParse(FileRefsOf(ks)))
  }

  /** The entries for `files` under `dir`, one per file, in order. */
  function EntriesOf(dir: string, files: seq<FileRef>): seq<Entry>
    decreases |files|
  {
    if |files| == 0 then []
    else [Entry(PathJoin(dir, files[0].name), files[0].value, Some(files[0].hash))] + EntriesOf(dir, files[1..])
  }

  /** The entries of a record: its files joined to its directory, or none
      when it has no directory. */
  function RecordEntries(ks: seq<Kind>): seq<Entry> {
    var dir := DirectoryOf(ks);
    if dir == "" then [] else EntriesOf(dir, FileRefsOf(ks))
  }

  predicate AllOk(recs: seq<seq<Kind>>) {
    forall k :: 0 <= k < |recs| ==> RecordOk(recs[k])
  }

  function ReferenceEntries(recs: seq<seq<Kind>>): seq<Entry>
    decreases |recs|
  {
    if |recs| == 0 then [] else RecordEntries(recs[0]) + ReferenceEntries(recs[1..])
  }

  lemma {:induction false} AllOkCons(rec: seq<Kind>, recs: seq<seq<Kind>>)
    ensures AllOk([rec] + recs) <==> RecordOk(rec) && AllOk(recs)
  {
    var all := [rec] + recs;
    assert all[0] == rec;
    if AllOk(all) {
      forall k | 0 <= k < |recs|
        ensures RecordOk(recs[k])
      {
        assert all[k + 1] == recs[k];
      }
    }
    if RecordOk(rec) && AllOk(recs) {
      forall k | 0 <= k < |all|
        ensures RecordOk(all[k])
      {
        if k > 0 {
          assert all[k] == recs[k - 1];
        }
      }
    }
  }

  lemma {:induction false} ReferenceEntriesCons(rec: seq<Kind>, recs: seq<seq<Kind>>)
    ensures ReferenceEntries([rec] + recs) == RecordEntries(rec) + ReferenceEntries(recs)
  {
    assert ([rec] + recs)[1..] == recs;
  }

  lemma {:induction false} SizesParseCons(files: seq<FileRef>)
    requires |files| > 0
    ensures SizesParse(files) <==> files[0].value.Some? && SizesParse(files[1..])
  {
    var rest := files[1..];
    assert forall k :: 0 <= k < |rest| ==> rest[k] == files[k + 1];
  }

  /** `finish()` inserts exactly the reference entries, and raises exactly
      when some size is not an integer. */
  lemma {:induction false} EmitMatches(dir: string, files: seq<FileRef>)
    ensures Emit(dir, files).Success? <==> SizesParse(files)
    ensures Emit(dir, files).Success? ==> Emit(dir, files).value == EntriesOf(dir, files)
    decreases |files|
  {
    if |files| > 0 {
      EmitMatches(dir, files[1..]);
      SizesParseCons(files);
    }
  }

  // Reading the lines as classes: the loop over classified lines.

  /** A line as the loop sees it: blank, or a line of some kind. */
  datatype LineClass = BlankLine | KindLine(kind: Kind)

  function ClassOf(raw: string): LineClass {
    if RStrip(raw) == "" then BlankLine else KindLine(KindOf(raw))
  }

  function Classes(lines: seq<string>): (r: seq<LineClass>)
    ensures |r| == |lines|
    decreases |lines|
  {
    if |lines| == 0 then [] else [ClassOf(lines[0])] + Classes(lines[1..])
  }

  function StepClass(st: SrcState, c: LineClass): Result<SrcState, ParseError> {
    match c
    case BlankLine => Close(st)
    case KindLine(k) => ScanKind(st, k)
  }

  function RunClasses(cs: seq<LineClass>, st: SrcState): Result<SrcState, ParseError>
    decreases |cs|
  {
    if |cs| == 0 then Close(st)
    else
      match StepClass(st, cs[0])
      case Failure(e) => Failure(e)
      case Success(st') => RunClasses(cs[1..], st')
  }

  // The source's tests on a line amount to reading its class.

  lemma {:induction false} IndentedIsNoField(i: string)
    requires |i| > 0 && (i[0] == ' ' || i[0] == '\t')
    ensures i != "Checksums-Sha256:"
    ensures !StartsWith(i, "Directory:")
  {
    assert "Checksums-Sha256:"[0] == 'C';
    if |i| >= 10 {
      assert i[..10][0] == i[0];
    }
  }

  lemma {:induction false} ScanListed(st: SrcState, raw: string)
    requires KindOf(raw).Indent? && st.inFiles
    ensures Scan(st, RStrip(raw)) == ScanKind(st, KindOf(raw))
  {
  }

  lemma {:induction false} ScanIndented(st: SrcState, raw: string)
    requires KindOf(raw).Indent? && !st.inFiles
    ensures Scan(st, RStrip(raw)) == ScanKind(st, KindOf(raw))
  {
    IndentedIsNoField(RStrip(raw));
  }

  lemma {:induction false} ScanHeader(st: SrcState, raw: string)
    requires KindOf(raw).Header?
    ensures Scan(st, RStrip(raw)) == ScanKind(st, KindOf(raw))
  {
    assert RStrip(raw)[0] == 'C';
  }

  lemma {:induction false} ScanDirectory(st: SrcState, raw: string)
    requires KindOf(raw).Directory?
    ensures Scan(st, RStrip(raw)) == ScanKind(st, KindOf(raw))
  {
    var i := RStrip(raw);
    assert i[0] == i[..10][0] == 'D';
  }

  lemma {:induction false} ScanOther(st: SrcState, raw: string)
    requires RStrip(raw) != "" && KindOf(raw).Other?
    ensures Scan(st, RStrip(raw)) == ScanKind(st, KindOf(raw))
  {
  }

  /** The loop body's tests, in the source's order, amount to reading the
      line's class: a blank line closes the record, any other acts through
      its kind alone. */
  lemma {:induction false} StepReadsClass(st: SrcState, raw: string)
    ensures Step(st, raw) == StepClass(st, ClassOf(raw))
  {
    if RStrip(raw) != "" {
      match KindOf(raw)
      case Indent(_, _) =>
        if st.inFiles {
          ScanListed(st, raw);
        } else {
          ScanIndented(st, raw);
        }
      case Header => ScanHeader(st, raw);
      case Directory(_) => ScanDirectory(st, raw);
      case Other => ScanOther(st, raw);
    }
  }

  lemma {:induction false} RunUnfold(lines: seq<string>, st: SrcState)
    requires |lines| > 0
    ensures Step(st, lines[0]).Failure? ==> Run(lines, st).Failure?
    ensures Step(st, lines[0]).Success? ==> Run(lines, st) == Run(lines[1..], Step(st, lines[0]).value)
  {
  }

  lemma {:induction false} ClassesCons(lines: seq<string>)
    requires |lines| > 0
    ensures Classes(lines)[0] == ClassOf(lines[0])
    ensures Classes(lines)[1..] == Classes(lines[1..])
  {
  }

  /** The loop over the lines is the loop over their classes. */
  lemma {:induction false} RunReadsClasses(lines: seq<string>, st: SrcState)
    ensures Run(lines, st) == RunClasses(Classes(lines), st)
    decreases |lines|
  {
    if |lines| > 0 {
      RunUnfold(lines, st);
      StepReadsClass(st, lines[0]);
      ClassesCons(lines);
      var c := Classes(lines);
      assert RunClasses(c, st) == match StepClass(st, c[0]) case Failure(e) => Failure(e) case Success(st') => RunClasses(c[1..], st');
      if Step(st, lines[0]).Success? {
        RunReadsClasses(lines[1..], Step(st, lines[0]).value);
      }
    }
  }

  // The reference records: the classified lines split at blank lines.

  /** The records of a classified index: the kinds of the lines between
      blank lines. */
  function ClassRecords(cs: seq<LineClass>): (r: seq<seq<Kind>>)
    ensures |r| >= 1
    decreases |cs|
  {
    if |cs| == 0 then [[]]
    else
      var rest := ClassRecords(cs[1..]);
      match cs[0]
      case BlankLine => [[]] + rest
      case KindLine(k) => [[k] + rest[0]] + rest[1..]
  }

  /** The records of `_sources`'s input: its lines split at blank lines,
      each line read as its kind. */
  function SourceRecords(lines: seq<string>): seq<seq<Kind>> {
    ClassRecords(Classes(lines))
  }

  /** The records when the lines `cs` follow the lines of kinds `ks` of an
      open record. */
  function RecordsFrom(ks: seq<Kind>, cs: seq<LineClass>): seq<seq<Kind>> {
    var recs := ClassRecords(cs);
    [ks + recs[0]] + recs[1..]
  }

  // The loop state after lines of kinds `ks` of a record.

  function At(ks: seq<Kind>, out: seq<Entry>): (r: SrcState)
    ensures r.nb == |r.out|
  {
    SrcState(InFiles(ks), DirectoryOf(ks), FileRefsOf(ks), out, |out|)
  }

  lemma {:induction false} InFilesAppend(ks: seq<Kind>, k: Kind)
    ensures InFiles(ks + [k]) == match k case Header => true case Indent(_, _) => InFiles(ks) case _ => false
  {
    assert (ks + [k])[..|ks|] == ks;
  }

  lemma {:induction false} DirectoryAppend(ks: seq<Kind>, k: Kind)
    ensures DirectoryOf(ks + [k]) == match k case Directory(v) => v case _ => DirectoryOf(ks)
  {
    assert (ks + [k])[..|ks|] == ks;
  }

  lemma {:induction false} FilesAppend(ks: seq<Kind>, k: Kind)
    ensures FileRefsOf(ks + [k]) == match k
      case Indent(_, ref) => FileRefsOf(ks) + (if InFiles(ks) && ref.Some? then [ref.value] else [])
      case _ => FileRefsOf(ks)
  {
    assert (ks + [k])[..|ks|] == ks;
  }

  lemma {:induction false} ShortAppend(ks: seq<Kind>, k: Kind)
    ensures HasShortLine(ks + [k]) == (HasShortLine(ks) || ShortAt(ks, k))
  {
    assert (ks + [k])[..|ks|] == ks;
  }

  lemma {:induction false} ScanFileAt(ks: seq<Kind>, out: seq<Entry>, k: Kind)
    requires k.Indent? && InFiles(ks) && k.ref.Some?
    ensures ScanKind(At(ks, out), k) == Success(At(ks + [k], out))
  {
    InFilesAppend(ks, k);
    DirectoryAppend(ks, k);
    FilesAppend(ks, k);
  }

  lemma {:induction false} ScanOutsideAt(ks: seq<Kind>, out: seq<Entry>, k: Kind)
    requires k.Indent? && !InFiles(ks)
    ensures ScanKind(At(ks, out), k) == Success(At(ks + [k], out))
  {
    InFilesAppend(ks, k);
    DirectoryAppend(ks, k);
    FilesAppend(ks, k);
    assert FileRefsOf(ks) + [] == FileRefsOf(ks);
  }

  lemma {:induction false} ScanFieldAt(ks: seq<Kind>, out: seq<Entry>, k: Kind)
    requires !k.Indent?
    ensures ScanKind(At(ks, out), k) == Success(At(ks + [k], out))
  {
    InFilesAppend(ks, k);
    DirectoryAppend(ks, k);
    FilesAppend(ks, k);
  }

  /** A line either raises, as a short file-list line, or moves the reading
      one line further into the record. */
  lemma {:induction false} ScanAt(ks: seq<Kind>, out: seq<Entry>, k: Kind)
    ensures ScanKind(At(ks, out), k).Failure? <==> ShortAt(ks, k)
    ensures !ShortAt(ks, k) ==> ScanKind(At(ks, out), k) == Success(At(ks + [k], out))
  {
    if !k.Indent? {
      ScanFieldAt(ks, out, k);
    } else if !InFiles(ks) {
      ScanOutsideAt(ks, out, k);
    } else if k.ref.Some? {
      ScanFileAt(ks, out, k);
    }
  }

  lemma {:induction false} CloseWithout(ks: seq<Kind>, out: seq<Entry>)
    requires DirectoryOf(ks) == ""
    ensures Close(At(ks, out)) == Success(At([], out + RecordEntries(ks)))
  {
    assert out + [] == out;
  }

  /** Closing a state with a directory inserts its files' entries, and
      raises exactly when some size is not an integer. */
  lemma {:induction false} CloseEmits(st: SrcState)
    requires st.directory != ""
    ensures Close(st).Success? <==> Emit(st.directory, st.files).Success?
    ensures Close(st).Success? ==> Close(st) == Success(SrcState(false, "", [], st.out + Emit(st.directory, st.files).value, st.nb + |Emit(st.directory, st.files).value|))
  {
  }

  lemma {:induction false} CloseDir(st: SrcState)
    requires st.directory != ""
    ensures Close(st).Success? <==> SizesParse(st.files)
    ensures Close(st).Success? ==> Close(st) == Success(SrcState(false, "", [], st.out + EntriesOf(st.directory, st.files), st.nb + |EntriesOf(st.directory, st.files)|))
  {
    CloseEmits(st);
    EmitMatches(st.directory, st.files);
  }

  lemma {:induction false} CloseWith(ks: seq<Kind>, out: seq<Entry>)
    requires DirectoryOf(ks) != ""
    ensures Close(At(ks, out)).Success? <==> SizesParse(FileRefsOf(ks))
    ensures Close(At(ks, out)).Success? ==> Close(At(ks, out)) == Success(At([], out + RecordEntries(ks)))
  {
    CloseDir(At(ks, out));
  }

  /** Closing a record inserts its reference entries, and raises exactly
      when it has a directory and a size that is not an integer. */
  lemma {:induction false} CloseAt(ks: seq<Kind>, out: seq<Entry>)
    ensures Close(At(ks, out)).Success? <==> (DirectoryOf(ks) != "" ==> SizesParse(FileRefsOf(ks)))
    ensures Close(At(ks, out)).Success? ==> Close(At(ks, out)) == Success(At([], out + RecordEntries(ks)))
  {
    if DirectoryOf(ks) == "" {
      CloseWithout(ks, out);
    } else {
      CloseWith(ks, out);
    }
  }

  /** A short line stays short however the record goes on. */
  lemma {:induction false} ShortLineStays(ks: seq<Kind>, qs: seq<Kind>)
    requires HasShortLine(ks)
    ensures HasShortLine(ks + qs)
    decreases |qs|
  {
    if |qs| > 0 {
      var qs' := qs[..|qs| - 1];
      ShortLineStays(ks, qs');
      assert (ks + qs)[..|ks + qs| - 1] == ks + qs';
    } else {
      assert ks + qs == ks;
    }
  }

  // The loop against the records.

  lemma {:induction false} RunClassesUnfold(cs: seq<LineClass>, st: SrcState)
    requires |cs| > 0
    ensures StepClass(st, cs[0]).Failure? ==> RunClasses(cs, st).Failure?
    ensures StepClass(st, cs[0]).Success? ==> RunClasses(cs, st) == RunClasses(cs[1..], StepClass(st, cs[0]).value)
  {
  }

  lemma {:induction false} RecordsAtEnd(ks: seq<Kind>)
    ensures RecordsFrom(ks, []) == [ks]
  {
    assert ks + [] == ks;
  }

  lemma {:induction false} RecordsAfterBlankClass(ks: seq<Kind>, cs: seq<LineClass>)
    requires |cs| > 0 && cs[0].BlankLine?
    ensures RecordsFrom(ks, cs) == [ks] + RecordsFrom([], cs[1..])
  {
    var rest := ClassRecords(cs[1..]);
    assert ClassRecords(cs) == [[]] + rest;
    assert ks + [] == ks;
    assert [] + rest[0] == rest[0];
    assert [rest[0]] + rest[1..] == rest;
  }

  lemma {:induction false} RecordsAfterKind(ks: seq<Kind>, cs: seq<LineClass>)
    requires |cs| > 0 && cs[0].KindLine?
    ensures RecordsFrom(ks, cs) == RecordsFrom(ks + [cs[0].kind], cs[1..])
  {
    var rest := ClassRecords(cs[1..]);
    assert ClassRecords(cs) == [[cs[0].kind] + rest[0]] + rest[1..];
    assert ks + ([cs[0].kind] + rest[0]) == (ks + [cs[0].kind]) + rest[0];
  }

  lemma {:induction false} ShortRecord(ks: seq<Kind>, cs: seq<LineClass>)
    requires HasShortLine(ks)
    ensures !AllOk(RecordsFrom(ks, cs))
  {
    ShortLineStays(ks, ClassRecords(cs)[0]);
    assert RecordsFrom(ks, cs)[0] == ks + ClassRecords(cs)[0];
  }

  lemma {:induction false} EndRecords(ks: seq<Kind>, out: seq<Entry>)
    requires !HasShortLine(ks)
    ensures AllOk(RecordsFrom(ks, [])) <==> (DirectoryOf(ks) != "" ==> SizesParse(FileRefsOf(ks)))
    ensures out + ReferenceEntries(RecordsFrom(ks, [])) == out + RecordEntries(ks)
  {
    RecordsAtEnd(ks);
    AllOkCons(ks, []);
    ReferenceEntriesCons(ks, []);
    assert [ks] + [] == [ks];
  }

  lemma {:induction false} BlankRecordsOk(ks: seq<Kind>, cs: seq<LineClass>)
    requires |cs| > 0 && cs[0].BlankLine?
    ensures AllOk(RecordsFrom(ks, cs)) <==> RecordOk(ks) && AllOk(RecordsFrom([], cs[1..]))
  {
    RecordsAfterBlankClass(ks, cs);
    AllOkCons(ks, RecordsFrom([], cs[1..]));
  }

  lemma {:induction false} BlankRecordsEntries(ks: seq<Kind>, cs: seq<LineClass>, out: seq<Entry>)
    requires |cs| > 0 && cs[0].BlankLine?
    ensures out + ReferenceEntries(RecordsFrom(ks, cs)) == (out + RecordEntries(ks)) + ReferenceEntries(RecordsFrom([], cs[1..]))
  {
    RecordsAfterBlankClass(ks, cs);
    ReferenceEntriesCons(ks, RecordsFrom([], cs[1..]));
    AppendAssoc(out, RecordEntries(ks), ReferenceEntries(RecordsFrom([], cs[1..])));
  }

  /** What the loop emits, and whether it raises, from a point where the
      lines of kinds `ks` of the current record have been read. */
  lemma {:induction false} RunFollowsRecords(ks: seq<Kind>, cs: seq<LineClass>, out: seq<Entry>)
    requires !HasShortLine(ks)
    ensures RunClasses(cs, At(ks, out)).Success? <==> AllOk(RecordsFrom(ks, cs))
    ensures RunClasses(cs, At(ks, out)).Success? ==> RunClasses(cs, At(ks, out)).value.out == out + ReferenceEntries(RecordsFrom(ks, cs))
    decreases |cs|
  {
    if |cs| == 0 {
      CloseAt(ks, out);
      EndRecords(ks, out);
    } else if cs[0].BlankLine? {
      RunClassesUnfold(cs, At(ks, out));
      CloseAt(ks, out);
      BlankRecordsOk(ks, cs);
      BlankRecordsEntries(ks, cs, out);
      RunFollowsRecords([], cs[1..], out + RecordEntries(ks));
    } else {
      var k := cs[0].kind;
      RunClassesUnfold(cs, At(ks, out));
      ScanAt(ks, out, k);
      ShortAppend(ks, k);
      RecordsAfterKind(ks, cs);
      if ShortAt(ks, k) {
        ShortRecord(ks + [k], cs[1..]);
      } else {
        RunFollowsRecords(ks + [k], cs[1..], out);
      }
    }
  }

  /** `_sources` inserts, in order, the files of every record that has a
      `Directory:` field, joined to that directory; it raises exactly when
      some file-list line has fewer than three fields, or some record with
      a directory lists a size that is not an integer. */
  lemma {:induction false} SourcesFollowRecords(lines: seq<string>)
    ensures ParseSources(lines).Success? <==> AllOk(SourceRecords(lines))
    ensures ParseSources(lines).Success? ==> ParseSources(lines).value.entries == ReferenceEntries(SourceRecords(lines))
  {
    assert At([], []) == Start;
    RunReadsClasses(lines, Start);
    RunFollowsRecords([], Classes(lines), []);
    assert RecordsFrom([], Classes(lines)) == SourceRecords(lines) by {
      var recs := SourceRecords(lines);
      assert [] + recs[0] == recs[0];
      assert [recs[0]] + recs[1..] == recs;
    }
  }
}
