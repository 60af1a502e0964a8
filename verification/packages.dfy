/** The binary-list grammar (`Packages` files, `_packages`): records
    separated by blank lines, each naming one file through its `Filename:`,
    `Size:` and `MD5sum:` fields. */
module Packages {
  import opened Results
  import opened Text
  import opened IndexLines

  /** The three fields the parser keeps. */
  datatype Field = FilenameField | SizeField | Md5Field

  /** The field a line sets and its value. The tests run in the parser's
      order (blank, `Filename:`, `Size:`, `MD5sum:`) and the first match
      wins. */
  function FieldOf(raw: string, f: Field): Option<string> {
    var i := RStrip(raw);
    if i == "" then None
    else if IsKey(i, "Filename") then (if f == FilenameField then Some(GetVal(i)) else None)
    else if IsKey(i, "Size") then (if f == SizeField then Some(GetVal(i)) else None)
    else if IsKey(i, "MD5sum") then (if f == Md5Field then Some(GetVal(i)) else None)
    else None
  }

  /** A `Size:` line whose value `int()` rejects. */
  predicate BadSizeLine(raw: string) {
    FieldOf(raw, SizeField).Some? && PyInt(FieldOf(raw, SizeField).value).None?
  }

  /** The parser's accumulators: the current record's fields, then what has
      been emitted so far and how many entries that is. */
  datatype PkgState = PkgState(filename: string, size: Option<int>, md5: Option<string>, out: seq<Entry>, nb: nat)

  const Start := PkgState("", None, None, [], 0)

  /** Emits the current record's entry when it named a file (`finish()`). */
  function Finish(st: PkgState): (r: PkgState)
    ensures r.out == st.out || (st.filename != "" && r.out == st.out + [Entry(st.filename, st.size, st.md5)])
    ensures r.nb - |r.out| == st.nb - |st.out|
  {
    if st.filename != "" then
      st.(out := st.out + [Entry(st.filename, st.size, st.md5)], nb := st.nb + 1)
    else st
  }

  /** Forgets the current record's fields (`reset()`). */
  function Reset(st: PkgState): PkgState {
    st.(filename := "", size := None, md5 := None)
  }

  /** One iteration of the loop over the lines. */
  function Step(st: PkgState, raw: string): (r: Result<PkgState, ParseError>)
    ensures r.Success? ==> r.value.out == st.out || (st.filename != "" && r.value.out == st.out + [Entry(st.filename, st.size, st.md5)])
    ensures r.Success? ==> r.value.nb - |r.value.out| == st.nb - |st.out|
  {
    var i := RStrip(raw);
    if i == "" then Success(Reset(Finish(st)))
    else if IsKey(i, "Filename") then Success(st.(filename := GetVal(i)))
    else if IsKey(i, "Size") then
      match PyInt(GetVal(i))
      case Some(v) => Success(st.(size := Some(v)))
      case None => Failure(BadInteger(GetVal(i)))
    else if IsKey(i, "MD5sum") then Success(st.(md5 := Some(GetVal(i))))
    else Success(st)
  }

  predicate NamedFiles(es: seq<Entry>) {
    forall k :: 0 <= k < |es| ==> es[k].path != ""
  }

  /** The loop over `lines` from state `st`, then the final `finish()`. */
  function Run(lines: seq<string>, st: PkgState): (r: Result<PkgState, ParseError>)
    ensures r.Success? ==> |st.out| <= |r.value.out| && r.value.out[..|st.out|] == st.out
    ensures r.Success? && st.nb == |st.out| ==> r.value.nb == |r.value.out|
    ensures r.Success? && NamedFiles(st.out) ==> NamedFiles(r.value.out)
    decreases |lines|
  {
    if |lines| == 0 then Success(Finish(st))
    else
      match Step(st, lines[0])
      case Failure(e) => Failure(e)
      case Success(st') => Run(lines[1..], st')
  }

  /** `_packages`: the entries handed to the inserter, in order, and the
      count it returns. */
  function ParsePackages(lines: seq<string>): (r: Result<Parsed, ParseError>)
    ensures r.Success? ==> r.value.count == |r.value.entries|
    ensures r.Success? ==> NamedFiles(r.value.entries)
  {
    var st :- Run(lines, Start);
    Success(Parsed(st.out, st.nb))
  }

  // Reference: the entry of a record read off its last field lines.

  /** The value of the record's last line that sets field `f`. */
  function LastField(rec: seq<string>, f: Field): Option<string>
    decreases |rec|
  {
    if |rec| == 0 then None
    else match FieldOf(rec[|rec| - 1], f)
      case Some(v) => Some(v)
      case None => LastField(rec[..|rec| - 1], f)
  }

  function SizeValue(t: Option<string>): Option<int> {
    match t
    case None => None
    case Some(s) => PyInt(s)
  }

  /** A record contributes one entry when its last `Filename:` is non-empty. */
  function RecordEntries(rec: seq<string>): seq<Entry> {
    var name := LastField(rec, FilenameField).GetOr("");
    if name == "" then []
    else [Entry(name, SizeValue(LastField(rec, SizeField)), LastField(rec, Md5Field))]
  }

  function ReferenceEntries(recs: seq<seq<string>>): seq<Entry>
    decreases |recs|
  {
    if |recs| == 0 then [] else RecordEntries(recs[0]) + ReferenceEntries(recs[1..])
  }

  /** The loop state `p` lines into a record, having emitted `out`. */
  function At(p: seq<string>, out: seq<Entry>): (r: PkgState)
    ensures r.nb == |r.out|
  {
    PkgState(LastField(p, FilenameField).GetOr(""), SizeValue(LastField(p, SizeField)), LastField(p, Md5Field), out, |out|)
  }

  lemma {:induction false} LastFieldAppend(p: seq<string>, l: string, f: Field)
    ensures LastField(p + [l], f) == if FieldOf(l, f).Some? then FieldOf(l, f) else LastField(p, f)
  {
    assert (p + [l])[..|p|] == p;
  }

  /** The state after a line that sets at most one field. */
  function Advance(st: PkgState, l: string): PkgState {
    st.(filename := FieldOf(l, FilenameField).GetOr(st.filename),
        size := if FieldOf(l, SizeField).Some? then PyInt(FieldOf(l, SizeField).value) else st.size,
        md5 := if FieldOf(l, Md5Field).Some? then FieldOf(l, Md5Field) else st.md5)
  }

  lemma {:induction false} StepOnField(st: PkgState, l: string)
    requires !Blank(l) && !BadSizeLine(l)
    ensures Step(st, l) == Success(Advance(st, l))
  {
    var i := RStrip(l);
    if IsKey(i, "Filename") {
      StepOnFilename(st, l);
    } else if IsKey(i, "Size") {
      StepOnSize(st, l);
    } else if IsKey(i, "MD5sum") {
      StepOnMd5(st, l);
    } else {
      StepOnOther(st, l);
    }
  }

  lemma {:induction false} StepOnFilename(st: PkgState, l: string)
    requires !Blank(l) && IsKey(RStrip(l), "Filename")
    ensures Step(st, l) == Success(Advance(st, l))
  {
    var i := RStrip(l);
    assert FieldOf(l, FilenameField) == Some(GetVal(i));
    assert FieldOf(l, SizeField) == None && FieldOf(l, Md5Field) == None;
  }

  lemma {:induction false} StepOnSize(st: PkgState, l: string)
    requires !Blank(l) && !BadSizeLine(l) && !IsKey(RStrip(l), "Filename") && IsKey(RStrip(l), "Size")
    ensures Step(st, l) == Success(Advance(st, l))
  {
    var i := RStrip(l);
    assert FieldOf(l, SizeField) == Some(GetVal(i));
    assert FieldOf(l, FilenameField) == None && FieldOf(l, Md5Field) == None;
    assert PyInt(GetVal(i)).Some?;
    assert Advance(st, l) == st.(size := PyInt(GetVal(i)));
  }

  lemma {:induction false} StepOnMd5(st: PkgState, l: string)
    requires !Blank(l) && !IsKey(RStrip(l), "Filename") && !IsKey(RStrip(l), "Size") && IsKey(RStrip(l), "MD5sum")
    ensures Step(st, l) == Success(Advance(st, l))
  {
    var i := RStrip(l);
    assert FieldOf(l, Md5Field) == Some(GetVal(i));
    assert FieldOf(l, FilenameField) == None && FieldOf(l, SizeField) == None;
  }

  lemma {:induction false} StepOnOther(st: PkgState, l: string)
    requires !Blank(l) && !IsKey(RStrip(l), "Filename") && !IsKey(RStrip(l), "Size") && !IsKey(RStrip(l), "MD5sum")
    ensures Step(st, l) == Success(Advance(st, l))
  {
    assert FieldOf(l, FilenameField) == None && FieldOf(l, SizeField) == None && FieldOf(l, Md5Field) == None;
  }

  lemma {:induction false} AdvanceAt(p: seq<string>, out: seq<Entry>, l: string)
    ensures Advance(At(p, out), l) == At(p + [l], out)
  {
    LastFieldAppend(p, l, FilenameField);
    LastFieldAppend(p, l, SizeField);
    LastFieldAppend(p, l, Md5Field);
  }

  /** A field line moves the state one line further into the record. */
  lemma {:induction false} StepWithinRecord(p: seq<string>, out: seq<Entry>, l: string)
    requires !Blank(l) && !BadSizeLine(l)
    ensures Step(At(p, out), l) == Success(At(p + [l], out))
  {
    StepOnField(At(p, out), l);
    AdvanceAt(p, out, l);
  }

  /** A blank line closes the record, emitting its entry, and opens the next. */
  lemma {:induction false} StepOnBlank(p: seq<string>, out: seq<Entry>, l: string)
    requires Blank(l)
    ensures Step(At(p, out), l) == Success(At([], out + RecordEntries(p)))
  {
    assert Step(At(p, out), l) == Success(Reset(Finish(At(p, out))));
    CloseAt(p, out);
  }

  lemma {:induction false} CloseAt(p: seq<string>, out: seq<Entry>)
    ensures Reset(Finish(At(p, out))) == At([], out + RecordEntries(p))
  {
  }

  lemma {:induction false} FinishAt(p: seq<string>, out: seq<Entry>)
    ensures Finish(At(p, out)).out == out + RecordEntries(p)
  {
  }

  /** Some `Size:` line among `lines` has a value `int()` rejects. */
  predicate HasBadSize(lines: seq<string>) {
    exists k :: 0 <= k < |lines| && BadSizeLine(lines[k])
  }

  lemma {:induction false} HasBadSizeCons(lines: seq<string>)
    requires |lines| > 0
    ensures HasBadSize(lines) <==> BadSizeLine(lines[0]) || HasBadSize(lines[1..])
  {
    assert forall k :: 1 <= k < |lines| ==> lines[k] == lines[1..][k - 1];
  }

  lemma {:induction false} RunUnfold(lines: seq<string>, st: PkgState)
    requires |lines| > 0
    ensures Step(st, lines[0]).Failure? ==> Run(lines, st).Failure?
    ensures Step(st, lines[0]).Success? ==> Run(lines, st) == Run(lines[1..], Step(st, lines[0]).value)
  {
  }

  lemma {:induction false} ReferenceEntriesCons(rec: seq<string>, recs: seq<seq<string>>)
    ensures ReferenceEntries([rec] + recs) == RecordEntries(rec) + ReferenceEntries(recs)
  {
    assert ([rec] + recs)[1..] == recs;
  }

  /** A line makes the loop raise exactly when it is a bad `Size:` line,
      whatever the state. */
  lemma {:induction false} StepFails(st: PkgState, l: string)
    ensures Step(st, l).Failure? <==> BadSizeLine(l)
  {
  }

  lemma {:induction false} RunFails(lines: seq<string>, st: PkgState)
    ensures Run(lines, st).Failure? <==> HasBadSize(lines)
    decreases |lines|
  {
    if |lines| > 0 {
      StepFails(st, lines[0]);
      RunUnfold(lines, st);
      HasBadSizeCons(lines);
      if Step(st, lines[0]).Success? {
        RunFails(lines[1..], Step(st, lines[0]).value);
      }
    }
  }

  /** What the loop emits from a point `p` lines into a record. */
  lemma {:induction false} RunFollowsRecords(p: seq<string>, lines: seq<string>, out: seq<Entry>)
    requires NoBlank(p)
    ensures Run(lines, At(p, out)).Success? ==> Run(lines, At(p, out)).value.out == out + ReferenceEntries(Records(p + lines))
    decreases |lines|, 1
  {
    if |lines| == 0 {
      RunAtEnd(p, out);
    } else if Blank(lines[0]) {
      RunAfterBlank(p, lines, out);
    } else {
      RunAfterField(p, lines, out);
    }
  }

  lemma {:induction false} RunAtEnd(p: seq<string>, out: seq<Entry>)
    requires NoBlank(p)
    ensures Run([], At(p, out)).value.out == out + ReferenceEntries(Records(p + []))
  {
    FinishAt(p, out);
    RecordsAfterPrefix(p, []);
    assert p + [] == p;
    ReferenceEntriesCons(p, []);
  }

  lemma {:induction false} RunOnBlank(p: seq<string>, lines: seq<string>, out: seq<Entry>)
    requires |lines| > 0 && Blank(lines[0])
    ensures Run(lines, At(p, out)) == Run(lines[1..], At([], out + RecordEntries(p)))
  {
    StepOnBlank(p, out, lines[0]);
    RunUnfold(lines, At(p, out));
  }

  lemma {:induction false} EntriesAfterBlank(p: seq<string>, lines: seq<string>, out: seq<Entry>)
    requires NoBlank(p) && |lines| > 0 && Blank(lines[0])
    ensures out + ReferenceEntries(Records(p + lines)) == (out + RecordEntries(p)) + ReferenceEntries(Records(lines[1..]))
  {
    RecordsAfterBlank(p, lines);
    ReferenceEntriesCons(p, Records(lines[1..]));
    AppendAssoc(out, RecordEntries(p), ReferenceEntries(Records(lines[1..])));
  }

  lemma {:induction false} RunAfterBlank(p: seq<string>, lines: seq<string>, out: seq<Entry>)
    requires NoBlank(p) && |lines| > 0 && Blank(lines[0])
    ensures Run(lines, At(p, out)).Success? ==> Run(lines, At(p, out)).value.out == out + ReferenceEntries(Records(p + lines))
    decreases |lines|, 0
  {
    RunOnBlank(p, lines, out);
    EntriesAfterBlank(p, lines, out);
    RunFromRecordStart(lines[1..], out + RecordEntries(p));
  }

  /** The same, from the first line of a record. */
  lemma {:induction false} RunFromRecordStart(lines: seq<string>, out: seq<Entry>)
    ensures Run(lines, At([], out)).Success? ==> Run(lines, At([], out)).value.out == out + ReferenceEntries(Records(lines))
    decreases |lines|, 2
  {
    var e: seq<string> := [];
    assert e + lines == lines;
    RunFollowsRecords(e, lines, out);
  }

  lemma {:induction false} RunOnField(p: seq<string>, lines: seq<string>, out: seq<Entry>)
    requires |lines| > 0 && !Blank(lines[0])
    ensures Run(lines, At(p, out)).Success? ==> Run(lines, At(p, out)) == Run(lines[1..], At(p + [lines[0]], out))
  {
    RunUnfold(lines, At(p, out));
    StepFails(At(p, out), lines[0]);
    if !BadSizeLine(lines[0]) {
      StepWithinRecord(p, out, lines[0]);
    }
  }

  lemma {:induction false} ExtendRecord(p: seq<string>, lines: seq<string>)
    requires NoBlank(p) && |lines| > 0 && !Blank(lines[0])
    ensures NoBlank(p + [lines[0]])
    ensures (p + [lines[0]]) + lines[1..] == p + lines
  {
    assert lines == [lines[0]] + lines[1..];
  }

  lemma {:induction false} RunAfterField(p: seq<string>, lines: seq<string>, out: seq<Entry>)
    requires NoBlank(p) && |lines| > 0 && !Blank(lines[0])
    ensures Run(lines, At(p, out)).Success? ==> Run(lines, At(p, out)).value.out == out + ReferenceEntries(Records(p + lines))
    decreases |lines|, 0
  {
    RunOnField(p, lines, out);
    ExtendRecord(p, lines);
    RunFollowsRecords(p + [lines[0]], lines[1..], out);
  }

  /** `_packages` emits one entry per record (the runs of lines between blank
      lines, the last one closed by the end of input) whose last `Filename:`
      value is non-empty, carrying that record's last `Size:` and `MD5sum:`
      values; it raises exactly when some `Size:` value is not an integer. */
  lemma {:induction false} PackagesFollowRecords(lines: seq<string>)
    ensures ParsePackages(lines).Failure? <==> HasBadSize(lines)
    ensures ParsePackages(lines).Success? ==> ParsePackages(lines).value.entries == ReferenceEntries(Records(lines))
  {
    RunFails(lines, Start);
    if ParsePackages(lines).Success? {
      assert At([], []) == Start;
      RunFromRecordStart(lines, []);
    }
  }
}
