/** What the two index grammars share: the file entry they emit, the way a
    `Key: value` line is matched, and the split of an index into records at
    blank lines (the reference the parsers are proved against). */
module IndexLines {
  import opened Results
  import opened Text

  /** One file an index lists: its path relative to the mirror root, its
      size and its digest (`None` where the index gave no such field). */
  datatype Entry = Entry(path: string, size: Option<int>, hash: Option<string>)

  /** The exceptions a parser raises: `int()` on a field that is not an
      integer (ValueError), or a file-list line with fewer than three
      space-separated fields (IndexError). */
  datatype ParseError = BadInteger(text: string) | ShortFileLine(line: string)

  /** A parser's output: the emitted entries, in order, and its return value. */
  datatype Parsed = Parsed(entries: seq<Entry>, count: nat)

  /** `a` starts with `b:`, compared case-insensitively (`_is_key`). */
  predicate IsKey(a: string, b: string) {
    var k := b + ":";
    |k| <= |a| && forall i :: 0 <= i < |k| ==> LowerChar(a[i]) == LowerChar(k[i])
  }

  /** The text after the first colon, left-stripped (`_get_val`); the whole
      line, left-stripped, when there is no colon. */
  function GetVal(a: string): string {
    LStrip(a[Find(a, ":") + 1..])
  }

  /** For a key without a colon, a matching line's first colon is the one
      right after the key, so the value is what follows the key's colon. */
  lemma {:induction false} KeyValue(a: string, b: string)
    requires ':' !in b
    requires IsKey(a, b)
    ensures Find(a, ":") == |b|
    ensures GetVal(a) == LStrip(a[|b| + 1..])
  {
    var k := b + ":";
    assert LowerChar(a[|b|]) == LowerChar(k[|b|]) == ':';
    assert a[|b|] == ':';
    assert OccursAt(a, ":", |b|);
    forall j | 0 <= j < |b|
      ensures !OccursAt(a, ":", j)
    {
      assert LowerChar(a[j]) == LowerChar(k[j]);
      assert k[j] == b[j];
      assert a[j..j + 1] == [a[j]];
    }
  }

  lemma {:induction false} AppendAssoc<T>(a: seq<T>, b: seq<T>, c: seq<T>)
    ensures a + (b + c) == (a + b) + c
  {
  }

  /** A line that is empty once trailing whitespace is stripped. */
  predicate Blank(raw: string) {
    RStrip(raw) == ""
  }

  predicate NoBlank(p: seq<string>) {
    forall m :: 0 <= m < |p| ==> !Blank(p[m])
  }

  /** The records of an index: the runs of lines between blank lines. There
      is always one more record than there are blank lines (some may be empty). */
  function Records(lines: seq<string>): (r: seq<seq<string>>)
    ensures |r| >= 1
    decreases |lines|
  {
    if |lines| == 0 then [[]]
    else
      var rest := Records(lines[1..]);
      if Blank(lines[0]) then [[]] + rest
      else [[lines[0]] + rest[0]] + rest[1..]
  }

  /** Lines without a blank one all belong to the first record. */
  lemma {:induction false} RecordsAfterPrefix(p: seq<string>, lines: seq<string>)
    requires NoBlank(p)
    ensures Records(p + lines) == [p + Records(lines)[0]] + Records(lines)[1..]
    decreases |p|
  {
    if |p| > 0 {
      assert (p + lines)[1..] == p[1..] + lines;
      RecordsAfterPrefix(p[1..], lines);
      assert [p[0]] + (p[1..] + Records(lines)[0]) == p + Records(lines)[0];
    } else {
      var r := Records(lines);
      assert p + lines == lines;
      assert p + r[0] == r[0];
      assert r == [r[0]] + r[1..];
    }
  }

  /** A blank line right after the lines `p` of a record closes that record. */
  lemma {:induction false} RecordsAfterBlank(p: seq<string>, lines: seq<string>)
    requires NoBlank(p) && |lines| > 0 && Blank(lines[0])
    ensures Records(p + lines) == [p] + Records(lines[1..])
  {
    RecordsAfterPrefix(p, lines);
    var recs := Records(lines);
    assert recs == [[]] + Records(lines[1..]);
    assert recs[1..] == Records(lines[1..]);
    assert p + recs[0] == p;
  }

  /** The records joined back with an empty line between consecutive ones. */
  function Unsplit(recs: seq<seq<string>>): seq<string>
    requires |recs| >= 1
  {
    if |recs| == 1 then recs[0] else recs[0] + [""] + Unsplit(recs[1..])
  }

  /** A line with blank lines written as the empty line. */
  function NormalizeBlank(raw: string): string {
    if Blank(raw) then "" else raw
  }

  /** The lines with every blank line written as the empty line. */
  function NormalizeAll(lines: seq<string>): (r: seq<string>)
    ensures |r| == |lines|
    ensures forall k :: 0 <= k < |lines| ==> r[k] == (if Blank(lines[k]) then "" else lines[k])
    decreases |lines|
  {
    if |lines| == 0 then [] else [NormalizeBlank(lines[0])] + NormalizeAll(lines[1..])
  }

  lemma {:induction false} UnsplitCons(rec: seq<string>, recs: seq<seq<string>>)
    requires |recs| >= 1
    ensures Unsplit([rec] + recs) == rec + [""] + Unsplit(recs)
  {
    assert ([rec] + recs)[1..] == recs;
  }

  lemma {:induction false} UnsplitHead(x: string, recs: seq<seq<string>>)
    requires |recs| >= 1
    ensures Unsplit([[x] + recs[0]] + recs[1..]) == [x] + Unsplit(recs)
  {
    if |recs| > 1 {
      UnsplitCons([x] + recs[0], recs[1..]);
      AppendAssoc([x], recs[0], [""]);
      AppendAssoc([x], recs[0] + [""], Unsplit(recs[1..]));
    }
  }

  /** Splitting at blank lines loses nothing but the blank lines' whitespace. */
  lemma {:induction false} RecordsRoundTrip(lines: seq<string>)
    ensures Unsplit(Records(lines)) == NormalizeAll(lines)
    decreases |lines|
  {
    if |lines| > 0 {
      var rest := Records(lines[1..]);
      RecordsRoundTrip(lines[1..]);
      if Blank(lines[0]) {
        UnsplitCons([], rest);
      } else {
        UnsplitHead(lines[0], rest);
      }
    }
  }

}
