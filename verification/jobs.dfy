/** The download jobs `wget` prepares: the number of leading directories
    wget must cut from each fetched URL, and the split of the sorted list of
    missing files into job files of equal length, the last one possibly
    shorter. */
module Jobs {
  import opened Results
  import opened Text

  // The path of the mirror URL, as `urllib.parse.urlsplit` reads it.

  predicate IsAsciiAlpha(c: char) {
    'a' <= c <= 'z' || 'A' <= c <= 'Z'
  }

  /** The characters a URL scheme may hold: letters, digits, `+`, `-`, `.`. */
  predicate SchemeChar(c: char) {
    IsAsciiAlpha(c) || ('0' <= c <= '9') || c == '+' || c == '-' || c == '.'
  }

  /** The first position at or after `k` holding `/`, `?` or `#`, or the
      length when there is none: where the network location ends. */
  function DelimFrom(u: string, k: nat): (r: nat)
    requires k <= |u|
    ensures k <= r <= |u|
    ensures forall i :: k <= i < r ==> u[i] != '/' && u[i] != '?' && u[i] != '#'
    ensures r < |u| ==> u[r] == '/' || u[r] == '?' || u[r] == '#'
    decreases |u| - k
  {
    if k == |u| then k
    else if u[k] == '/' || u[k] == '?' || u[k] == '#' then k
    else DelimFrom(u, k + 1)
  }

  /** The URL without its scheme: the text after the first `:` when what
      precedes it is a scheme starting with a letter. */
  function AfterScheme(url: string): string {
    var i := FindChar(url, ':');
    if i > 0 && IsAsciiAlpha(url[0]) && forall k :: 0 <= k < i ==> SchemeChar(url[k]) then url[i + 1..] else url
  }

  /** The path component of `urlsplit`: drop the scheme, then the network
      location after a leading `//`, then the fragment, then the query. */
  function UrlPath(url: string): (r: string)
    ensures '?' !in r && '#' !in r
  {
    var u := AfterScheme(url);
    var u1 := if StartsWith(u, "//") then u[DelimFrom(u, 2)..] else u;
    var u2 := if '#' in u1 then u1[..FindChar(u1, '#')] else u1;
    if '?' in u2 then u2[..FindChar(u2, '?')] else u2
  }

  /** A scheme: a letter, then letters, digits, `+`, `-` or `.`. */
  predicate IsScheme(scheme: string) {
    |scheme| > 0 && IsAsciiAlpha(scheme[0]) && forall k :: 0 <= k < |scheme| ==> SchemeChar(scheme[k])
  }

  /** A network location: no `/`, `?` or `#`. */
  predicate IsHost(host: string) {
    forall k :: 0 <= k < |host| ==> host[k] != '/' && host[k] != '?' && host[k] != '#'
  }

  lemma {:induction false} AfterSchemeOf(scheme: string, rest: string)
    requires IsScheme(scheme)
    ensures AfterScheme(scheme + ":" + rest) == rest
  {
    assert ':' !in scheme;
    FindCharAfter(scheme, ':', rest);
    assert (scheme + ":" + rest)[|scheme| + 1..] == rest;
  }

  /** After the scheme, `//host` is the network location and what follows
      it is the path. */
  lemma {:induction false} NetlocStrip(host: string, path: string)
    requires IsHost(host) && (path == "" || path[0] == '/')
    ensures var u := "//" + host + path;
      StartsWith(u, "//") && u[DelimFrom(u, 2)..] == path
  {
    var u := "//" + host + path;
    if path != "" {
      assert u[|host| + 2] == '/';
    }
    assert DelimFrom(u, 2) == |host| + 2;
    assert u[..2] == "//";
    assert u[|host| + 2..] == path;
  }

  /** For a URL written `scheme://host/path` with no query or fragment,
      `urlsplit`'s path is the `/path` part. */
  lemma {:induction false} UrlPathOfPlain(scheme: string, host: string, path: string)
    requires IsScheme(scheme) && IsHost(host)
    requires path == "" || path[0] == '/'
    requires '?' !in path && '#' !in path
    ensures UrlPath(scheme + "://" + host + path) == path
  {
    var u := "//" + host + path;
    assert scheme + "://" + host + path == scheme + ":" + u;
    AfterSchemeOf(scheme, u);
    NetlocStrip(host, path);
  }

  /** The mirror URL's path without one trailing `/`. */
  function MirrorPath(mirror: string): string {
    var s := UrlPath(mirror);
    if EndsWith(s, "/") then s[..|s| - 1] else s
  }

  /** The mirror URL must name the archive root, not its `pool` directory. */
  predicate PointsAtPool(mirror: string) {
    EndsWith(MirrorPath(mirror), "/pool")
  }

  /** `--cut-dirs`: the number of `/` in the mirror's path, which is the
      number of directories of that path wget must drop so that files land
      under the pool root as `pool/...`. */
  function CutDirs(mirror: string): nat {
    CountChar(MirrorPath(mirror), '/')
  }

  /** The cut is the number of components after the first `/`: one per
      directory of the path. */
  lemma {:induction false} CutDirsCountsDirectories(mirror: string)
    ensures CutDirs(mirror) == |Split(MirrorPath(mirror), '/')| - 1
  {
    CountIsFieldsMinusOne(MirrorPath(mirror), '/');
  }

  /** The Debian mirror URL, read as `scheme://host/path`. */
  lemma {:induction false} DebianMirrorParts()
    ensures IsScheme("http") && IsHost("deb.debian.org")
    ensures "http://deb.debian.org/debian/" == "http" + "://" + "deb.debian.org" + "/debian/"
  {
    assert "http" + "://" == "http://";
    assert "http://" + "deb.debian.org" == "http://deb.debian.org";
  }

  lemma {:induction false} DebianMirrorPath()
    ensures UrlPath("http://deb.debian.org/debian/") == "/debian/"
  {
    DebianMirrorParts();
    UrlPathOfPlain("http", "deb.debian.org", "/debian/");
  }

  lemma {:induction false} CutDirsOfDebianPath(mirror: string)
    requires UrlPath(mirror) == "/debian/"
    ensures !PointsAtPool(mirror) && CutDirs(mirror) == 1
  {
    var s: string := "/debian/";
    assert s[|s| - 1..] == "/";
    assert s[..|s| - 1] == "/debian";
    var t := MirrorPath(mirror);
    assert t[|t| - 5..][0] == 'e' != "/pool"[0];
    assert t == "/" + "debian";
    CountCharAppend("/", "debian", '/');
    CountCharAbsent("debian", '/');
  }

  /** The usual Debian mirror URL gives `--cut-dirs=1`: its path `/debian/`
      holds one directory. */
  lemma {:induction false} CutDirsOfDebianMirror()
    ensures !PointsAtPool("http://deb.debian.org/debian/")
    ensures CutDirs("http://deb.debian.org/debian/") == 1
  {
    DebianMirrorPath();
    CutDirsOfDebianPath("http://deb.debian.org/debian/");
  }

  // The job files.

  /** The lines written for the URLs: each joined to the mirror URL. */
  function Lines(mirror: string, urls: seq<string>): (r: seq<string>)
    ensures |r| == |urls|
    ensures forall k :: 0 <= k < |urls| ==> r[k] == PathJoin(mirror, urls[k])
  {
    seq(|urls|, k requires 0 <= k < |urls| => PathJoin(mirror, urls[k]))
  }

  /** The files' lines one after the other. */
  function Concat<T>(files: seq<seq<T>>): seq<T>
    decreases |files|
  {
    if |files| == 0 then [] else Concat(files[..|files| - 1]) + files[|files| - 1]
  }

  /** Every file holds `n` lines, except the last, which holds 1 to `n`. */
  predicate Filled<T>(files: seq<seq<T>>, n: nat) {
    (forall k :: 0 <= k < |files| - 1 ==> |files[k]| == n)
    && (|files| > 0 ==> 0 < |files[|files| - 1]| <= n)
  }

  /** The lines per file: `ceil(nb / jobs)`. */
  function LinesPerFile(nb: nat, jobs: nat): (n: nat)
    requires jobs >= 1
    ensures nb > 0 ==> n > 0
  {
    (nb + jobs - 1) / jobs
  }

  lemma {:induction false} ConcatAppend<T>(files: seq<seq<T>>, f: seq<T>)
    ensures Concat(files + [f]) == Concat(files) + f
  {
    assert (files + [f])[..|files|] == files;
  }

  lemma {:induction false} ConcatExtend<T>(files: seq<seq<T>>, line: T)
    requires |files| > 0
    ensures Concat(files[..|files| - 1] + [files[|files| - 1] + [line]]) == Concat(files) + [line]
  {
    var init := files[..|files| - 1];
    var last := files[|files| - 1];
    ConcatAppend(init, last + [line]);
    assert Concat(init) + (last + [line]) == (Concat(init) + last) + [line];
  }

  /** The loop's state: the files so far and the position `j` in the current
      one, 0 when the next line starts a new file. */
  predicate Filling<T>(files: seq<seq<T>>, j: nat, n: nat) {
    Filled(files, n)
    && (|files| == 0 ==> j == 0)
    && (|files| > 0 ==> j == (if |files[|files| - 1]| == n then 0 else |files[|files| - 1]|))
  }

  lemma {:induction false} FillingStep<T>(files: seq<seq<T>>, j: nat, n: nat, line: T)
    requires n > 0 && Filling(files, j, n)
    ensures var files1 := if j == 0 then files + [[]] else files;
      var files2 := files1[..|files1| - 1] + [files1[|files1| - 1] + [line]];
      Filling(files2, if j + 1 >= n then 0 else j + 1, n)
  {
    var files1 := if j == 0 then files + [[]] else files;
    var files2 := files1[..|files1| - 1] + [files1[|files1| - 1] + [line]];
    assert forall k :: 0 <= k < |files2| - 1 ==> files2[k] == files[k];
  }

  /** The loop of `wget` over the lines: each goes to the current file, a
      new file being started whenever the current one holds `n` lines. */
  method Partition<T>(lines: seq<T>, n: nat) returns (files: seq<seq<T>>)
    requires |lines| > 0 ==> n > 0
    ensures Concat(files) == lines
    ensures Filled(files, n)
    ensures |lines| == 0 ==> files == []
  {
    files := [];
    var j := 0;
    var i := 0;
    while i < |lines|
      invariant 0 <= i <= |lines|
      invariant Concat(files) == lines[..i]
      invariant Filling(files, j, n)
    {
      assert lines[..i + 1] == lines[..i] + [lines[i]];
      FillingStep(files, j, n, lines[i]);
      if j == 0 {
        ConcatAppend(files, []);
        files := files + [[]];
      }
      ConcatExtend(files, lines[i]);
      files := files[..|files| - 1] + [files[|files| - 1] + [lines[i]]];
      j := j + 1;
      if j >= n {
        j := 0;
      }
      i := i + 1;
    }
    assert lines[..i] == lines;
  }

  // How the lines fall into files.

  /** The files before the `k`-th hold `k * n` lines. */
  lemma {:induction false} PrefixLength<T>(files: seq<seq<T>>, n: nat, k: nat)
    requires Filled(files, n) && k < |files|
    ensures |Concat(files[..k])| == k * n
  {
    if k > 0 {
      PrefixLength(files, n, k - 1);
      assert files[..k] == files[..k - 1] + [files[k - 1]];
      ConcatAppend(files[..k - 1], files[k - 1]);
    }
  }

  /** File `k` sits in the concatenation right after the files before it. */
  lemma {:induction false} SliceOfConcat<T>(files: seq<seq<T>>, k: nat)
    requires k < |files|
    ensures var p := |Concat(files[..k])|;
      p + |files[k]| <= |Concat(files)| && files[k] == Concat(files)[p..p + |files[k]|]
    decreases |files|
  {
    var m := |files|;
    if k < m - 1 {
      var init := files[..m - 1];
      SliceOfConcat(init, k);
      assert init[..k] == files[..k] && init[k] == files[k];
    }
  }

  /** File `k` holds the `k`-th run of consecutive lines: those from
      position `k * n` on. */
  lemma {:induction false} FileIsSlice<T>(files: seq<seq<T>>, lines: seq<T>, n: nat, k: nat)
    requires Concat(files) == lines && Filled(files, n) && k < |files|
    ensures k * n + |files[k]| <= |lines|
    ensures files[k] == lines[k * n..k * n + |files[k]|]
  {
    PrefixLength(files, n, k);
    SliceOfConcat(files, k);
  }

  lemma {:induction false} MulMono(a: int, b: int, n: int)
    requires n >= 0
    ensures a >= b ==> a * n >= b * n
  {
    assert a * n - b * n == (a - b) * n;
  }

  /** There are `ceil(nb / n)` files: the fewest files of `n` lines that hold
      the `nb` lines; the last holds what the others leave. */
  lemma {:induction false} FileCount<T>(files: seq<seq<T>>, lines: seq<T>, n: nat)
    requires n > 0 && Concat(files) == lines && Filled(files, n)
    ensures |files| == 0 <==> |lines| == 0
    ensures |files| > 0 ==> (|files| - 1) * n < |lines| <= |files| * n
    ensures |files| > 0 ==> |files[|files| - 1]| == |lines| - (|files| - 1) * n
  {
    var m := |files|;
    if m > 0 {
      PrefixLength(files, n, m - 1);
      assert files == files[..m - 1] + [files[m - 1]];
      ConcatAppend(files[..m - 1], files[m - 1]);
      assert m * n == (m - 1) * n + n;
    }
  }

  /** With `n = ceil(nb / jobs)` lines per file, at most `jobs` files are
      needed. */
  lemma {:induction false} AtMostJobs(nb: nat, jobs: nat, m: nat)
    requires jobs >= 1
    requires (m - 1) * LinesPerFile(nb, jobs) < nb
    ensures m <= jobs
  {
    var n := LinesPerFile(nb, jobs);
    assert nb + jobs - 1 == n * jobs + (nb + jobs - 1) % jobs;
    MulMono(m - 1, jobs, n);
  }

  /** What `wget` prepares: the cut and the contents of `url.1`, `url.2`, ... */
  datatype Plan = Plan(cut: nat, files: seq<seq<string>>)

  /** `wget`: it asserts that `jobs` is between 1 and 20; no job file is
      written when the mirror points at `pool`; otherwise the URLs, joined to
      the mirror, are dealt in order into files of `ceil(nb / jobs)` lines. */
  method Wget(urls: seq<string>, mirror: string, jobs: int) returns (r: Result<Option<Plan>, AssertionError>)
    ensures r.Failure? <==> !(1 <= jobs <= 20)
    ensures r.Success? ==> (r.value.None? <==> PointsAtPool(mirror))
    ensures r.Success? && r.value.Some? ==> r.value.value.cut == CutDirs(mirror)
    ensures r.Success? && r.value.Some? ==> Concat(r.value.value.files) == Lines(mirror, urls)
    ensures r.Success? && r.value.Some? ==> Filled(r.value.value.files, LinesPerFile(|urls|, jobs))
    ensures r.Success? && r.value.Some? ==> |r.value.value.files| <= jobs
    ensures r.Success? && r.value.Some? ==> (|r.value.value.files| == 0 <==> |urls| == 0)
    ensures r.Success? && r.value.Some? && |urls| > 0 ==>
      var m := |r.value.value.files|;
      (m - 1) * LinesPerFile(|urls|, jobs) < |urls| <= m * LinesPerFile(|urls|, jobs)
  {
    if !(1 <= jobs <= 20) {
      return Failure(AssertionError);
    }
    if PointsAtPool(mirror) {
      return Success(None);
    }
    var n := LinesPerFile(|urls|, jobs);
    var files := Partition(Lines(mirror, urls), n);
    if |urls| > 0 {
      FileCount(files, Lines(mirror, urls), n);
      AtMostJobs(|urls|, jobs, |files|);
    }
    r := Success(Some(Plan(CutDirs(mirror), files)));
  }

  /** 25 paths over 4 jobs: files of 7, 7, 7 and 4 lines. */
  lemma {:induction false} TwentyFiveOverFour<T>(files: seq<seq<T>>, lines: seq<T>)
    requires |lines| == 25 && Concat(files) == lines && Filled(files, LinesPerFile(25, 4))
    ensures |files| == 4
    ensures |files[0]| == 7 && |files[1]| == 7 && |files[2]| == 7 && |files[3]| == 4
  {
    assert LinesPerFile(25, 4) == 7;
    FileCount(files, lines, 7);
    assert |files| * 7 >= 25 && (|files| - 1) * 7 < 25;
  }

  /** 5 paths over 4 jobs: only three files, of 2, 2 and 1 lines. */
  lemma {:induction false} FiveOverFour<T>(files: seq<seq<T>>, lines: seq<T>)
    requires |lines| == 5 && Concat(files) == lines && Filled(files, LinesPerFile(5, 4))
    ensures |files| == 3
    ensures |files[0]| == 2 && |files[1]| == 2 && |files[2]| == 1
  {
    assert LinesPerFile(5, 4) == 2;
    FileCount(files, lines, 2);
    assert |files| * 2 >= 5 && (|files| - 1) * 2 < 5;
  }
}
