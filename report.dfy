/** The driver of scripts/extract_session_types.py around the per-file scan:
    one scan per session file in walk order, the global set `all_types` that
    every scan adds to, and the sorted lists it reports. */
module Report {
  import opened Bytes
  import opened SessionScan

  /** A `session.dat` file found by the directory walk: its path and its bytes. */
  datatype SessionFile = SessionFile(path: string, content: seq<Byte>)

  /** What is reported for one file: its path, the number of distinct tags
      and the tags in ascending order. */
  datatype FileReport = FileReport(path: string, count: nat, types: seq<nat>)

  /** The whole report: how many files were found, one entry per file, and
      every distinct tag across all files in ascending order. */
  datatype ScanReport = ScanReport(fileCount: nat, files: seq<FileReport>, allTypes: seq<nat>)

  predicate StrictlyAscending(s: seq<nat>)
  {
    forall k, l :: 0 <= k < l < |s| ==> s[k] < s[l]
  }

  /** The list `r` holds exactly the elements of the set `s`. */
  ghost predicate SameElements(r: seq<nat>, s: set<nat>)
  {
    forall x :: x in r <==> x in s
  }

  /** A non-empty set of naturals has a least element. */
  lemma {:induction false} MinimumExists(s: set<nat>)
    requires s != {}
    ensures exists m :: m in s && IsLeast(s, m)
    decreases s
  {
    var x :| x in s;
    if s == {x} {
      assert IsLeast(s, x);
    } else {
      var rest := s - {x};
      MinimumExists(rest);
      var m :| m in rest && IsLeast(rest, m);
      var least := if x < m then x else m;
      forall y | y in s
        ensures least <= y
      {
        if y != x {
          assert y in rest;
        }
      }
      assert least in s && IsLeast(s, least);
    }
  }

  /** `m` is no larger than any element of `s`. */
  predicate IsLeast(s: set<nat>, m: nat)
  {
    forall y :: y in s ==> m <= y
  }

  /** The least element of a non-empty set. */
  function Least(s: set<nat>): (m: nat)
    requires s != {}
    ensures m in s && IsLeast(s, m)
  {
    MinimumExists(s);
    var m :| m in s && IsLeast(s, m);
    m
  }

  /** `sorted(s)` for a set of tags: its elements in ascending order, each once. */
  function SortedTags(s: set<nat>): (r: seq<nat>)
    ensures StrictlyAscending(r)
    ensures SameElements(r, s)
    decreases s
  {
    if s == {} then []
    else
      var m := Least(s);
      [m] + SortedTags(s - {m})
  }

  /** The sorted list has one entry per element of the set, so the count a
      file report prints equals the length of the list printed beside it. */
  lemma {:induction false} SortedTagsLength(s: set<nat>)
    ensures |SortedTags(s)| == |s|
    decreases s
  {
    if s != {} {
      var m := Least(s);
      SortedTagsLength(s - {m});
      assert |s - {m}| == |s| - 1;
    }
  }

  /** The first entry of a non-empty sorted list is the least tag of the set. */
  lemma SortedTagsHead(s: set<nat>)
    requires s != {}
    ensures SortedTags(s) != [] && SortedTags(s)[0] == Least(s)
  {
  }

  /** The head of a strictly ascending list is the least of its elements, and
      its tail holds exactly the other elements. */
  lemma AscendingHeadTail(s: set<nat>, r: seq<nat>)
    requires StrictlyAscending(r) && r != []
    requires SameElements(r, s)
    ensures s != {} && r[0] == Least(s)
    ensures StrictlyAscending(r[1..])
    ensures SameElements(r[1..], s - {r[0]})
  {
    assert r[0] in s;
    var m := Least(s);
    assert m <= r[0];
    assert m in r;
    assert forall i :: 0 < i < |r| ==> r[0] < r[i];
    forall x
      ensures x in r[1..] <==> x in s - {r[0]}
    {
      if x in r[1..] {
        var i :| 1 <= i < |r| && r[i] == x;
        assert r[0] < r[i];
      }
      if x in s - {r[0]} {
        var i :| 0 <= i < |r| && r[i] == x;
        assert r[1..][i - 1] == x;
      }
    }
  }

  /** A strictly ascending list is fixed by its elements, so any list that
      holds a set's elements in ascending order without repetitions is the one
      SortedTags gives. */
  lemma {:induction false} SortedTagsUnique(s: set<nat>, r: seq<nat>)
    requires StrictlyAscending(r)
    requires SameElements(r, s)
    ensures r == SortedTags(s)
    decreases |r|
  {
    if r == [] {
      forall x ensures x !in s {
        assert x !in r;
      }
      assert s == {};
    } else {
      AscendingHeadTail(s, r);
      var rest := s - {r[0]};
      SortedTagsUnique(rest, r[1..]);
      assert SortedTags(s) == [r[0]] + SortedTags(rest);
      assert r == [r[0]] + r[1..];
    }
  }

  /** The union of the tag sets of all the files. */
  ghost function AllTags(files: seq<SessionFile>): set<nat>
    decreases |files|
  {
    if files == [] then {} else AllTags(files[..|files| - 1]) + TypeTags(files[|files| - 1].content)
  }

  /** A tag is in the union exactly when some file holds it. */
  lemma {:induction false} AllTagsMembership(files: seq<SessionFile>, t: nat)
    ensures t in AllTags(files) <==> exists k :: 0 <= k < |files| && t in TypeTags(files[k].content)
    decreases |files|
  {
    if files != [] {
      var init := files[..|files| - 1];
      AllTagsMembership(init, t);
      if t in AllTags(init) {
        var k :| 0 <= k < |init| && t in TypeTags(init[k].content);
        assert files[k] == init[k];
      }
      if exists k :: 0 <= k < |files| && t in TypeTags(files[k].content) {
        var k :| 0 <= k < |files| && t in TypeTags(files[k].content);
        if k < |files| - 1 {
          assert init[k] == files[k];
        }
      }
    }
  }

  /** The union does not depend on the order in which the walk lists the files. */
  lemma AllTagsReorder(files: seq<SessionFile>, other: seq<SessionFile>)
    requires multiset(files) == multiset(other)
    ensures AllTags(files) == AllTags(other)
  {
    forall t | t in AllTags(files)
      ensures t in AllTags(other)
    {
      AllTagsMembership(files, t);
      var k :| 0 <= k < |files| && t in TypeTags(files[k].content);
      assert files[k] in multiset(other);
      var j :| 0 <= j < |other| && other[j] == files[k];
      AllTagsMembership(other, t);
    }
    forall t | t in AllTags(other)
      ensures t in AllTags(files)
    {
      AllTagsMembership(other, t);
      var k :| 0 <= k < |other| && t in TypeTags(other[k].content);
      assert other[k] in multiset(files);
      var j :| 0 <= j < |files| && files[j] == other[k];
      AllTagsMembership(files, t);
    }
  }

  /** Every file's tags are in the global set. */
  lemma FileTagsInAll(files: seq<SessionFile>, k: nat)
    requires k < |files|
    ensures TypeTags(files[k].content) <= AllTags(files)
  {
    forall t | t in TypeTags(files[k].content)
      ensures t in AllTags(files)
    {
      AllTagsMembership(files, t);
    }
  }

  /** The report line the run prints for one file: its path, the number of
      distinct tags and those tags in ascending order. */
  ghost function FileReportOf(f: SessionFile): FileReport
  {
    var tags := TypeTags(f.content);
    FileReport(f.path, |tags|, SortedTags(tags))
  }

  /** `reports` holds the report lines of the first |reports| files, in order. */
  ghost predicate ReportsOf(files: seq<SessionFile>, reports: seq<FileReport>)
  {
    |reports| <= |files| && forall k :: 0 <= k < |reports| ==> reports[k] == FileReportOf(files[k])
  }

  /** Appending the next file's report line keeps the reports in step with the files. */
  lemma ReportsOfStep(files: seq<SessionFile>, reports: seq<FileReport>, next: FileReport)
    requires ReportsOf(files, reports) && |reports| < |files|
    requires next == FileReportOf(files[|reports|])
    ensures ReportsOf(files, reports + [next])
  {
  }

  /** The whole run after the walk (lines 16-39): scan each file in order,
      collecting its own tag set and adding the same tags to the global set,
      then report each file's count and sorted tags and the sorted global set. */
  method ExtractSessionTypes(files: seq<SessionFile>) returns (report: ScanReport)
    ensures report.fileCount == |files|
    ensures |report.files| == |files| && ReportsOf(files, report.files)
    ensures report.allTypes == SortedTags(AllTags(files))
  {
    var allTypes: set<nat> := {};
    var reports: seq<FileReport> := [];
    for n := 0 to |files|
      invariant allTypes == AllTags(files[..n])
      invariant |reports| == n && ReportsOf(files, reports)
    {
      var typesFound; ghost var visited;
      ghost var before := allTypes;
      typesFound, allTypes, visited := ScanFile(files[n].content, allTypes);
      assert AllTags(files[..n + 1]) == before + TypeTags(files[n].content) by {
        assert files[..n + 1][..n] == files[..n];
      }
      var fileReport := FileReport(files[n].path, |typesFound|, SortedTags(typesFound));
      ReportsOfStep(files, reports, fileReport);
      reports := reports + [fileReport];
    }
    assert files[..|files|] == files;
    report := ScanReport(|files|, reports, SortedTags(allTypes));
  }
}
