/** The `find` command: searching the branch logs and the removed-branch log for an exact commit message. */
module LogSearch {
  import opened Wrappers
  import opened CommitLog

  /** What `findOneFile` saw in one file: the ids it printed, and whether a short line ended the process. */
  datatype Scan = Scan(ids: seq<string>, crashed: bool)

  /** What `find` did: every id it printed, and the error it stopped with, if any. */
  datatype Found = Found(printed: seq<string>, err: Option<string>)

  /** A line `findOneFile` cannot read: with fewer than three spaces it splits into fewer than four fields. */
  predicate Short(line: string) {
    Count(line, ' ') < 3
  }

  /** How many lines come before the first short one. */
  function Readable(lines: seq<string>): (k: nat)
    ensures k <= |lines|
    ensures forall i :: 0 <= i < k ==> !Short(lines[i])
    ensures k < |lines| ==> Short(lines[k])
  {
    if lines == [] || Short(lines[0]) then 0 else 1 + Readable(lines[1..])
  }

  /** The id field of each of the first `k` lines whose message field is exactly `query`, in order. */
  function Hits(lines: seq<string>, k: nat, query: string): seq<string>
    requires k <= |lines|
    requires forall i :: 0 <= i < k ==> !Short(lines[i])
  {
    if k == 0 then []
    else
      var t := SplitN(lines[0], ' ', 4);
      assert !Short(lines[0]);
      SplitNLength(lines[0], ' ', 4);
      (if t[3] == query then [t[1]] else []) + Hits(lines[1..], k - 1, query)
  }

  /** `findOneFile` over the lines of one file, in order. A line with fewer than four fields
      has no `tokens[1]` or `tokens[3]`: the array access throws before anything is printed for it. */
  function ScanLines(lines: seq<string>, query: string): (r: Scan)
    ensures r.crashed <==> exists i :: 0 <= i < |lines| && Short(lines[i])
    ensures r.ids == Hits(lines, Readable(lines), query)
    decreases |lines|
  {
    if lines == [] then Scan([], false)
    else
      var t := SplitN(lines[0], ' ', 4);
      SplitNLength(lines[0], ' ', 4);
      if |t| < 4 then
        assert Short(lines[0]);
        Scan([], true)
      else
        var rest := ScanLines(lines[1..], query);
        ShortTail(lines);
        HitsStep(lines, query);
        Scan((if t[3] == query then [t[1]] else []) + rest.ids, rest.crashed)
  }

  /** Past a readable first line, a short line exists exactly when one exists in the rest. */
  lemma ShortTail(lines: seq<string>)
    requires lines != [] && !Short(lines[0])
    ensures (exists i :: 0 <= i < |lines| && Short(lines[i]))
            <==> exists i :: 0 <= i < |lines[1..]| && Short(lines[1..][i])
  {
    if exists i :: 0 <= i < |lines| && Short(lines[i]) {
      var i :| 0 <= i < |lines| && Short(lines[i]);
      assert i > 0 && Short(lines[1..][i - 1]);
    }
  }

  /** A readable first line adds its own hit in front of the hits of the rest. */
  lemma HitsStep(lines: seq<string>, query: string)
    requires lines != [] && !Short(lines[0])
    ensures var t := SplitN(lines[0], ' ', 4);
            |t| == 4 && Readable(lines) == 1 + Readable(lines[1..]) &&
            Hits(lines, Readable(lines), query)
            == (if t[3] == query then [t[1]] else []) + Hits(lines[1..], Readable(lines[1..]), query)
  {
    SplitNLength(lines[0], ' ', 4);
  }

  /** `findOneFile` on a whole file: the process ends exactly when some line of it is short. */
  function ScanFile(text: string, query: string): (r: Scan)
    ensures r.crashed <==> exists i :: 0 <= i < |SplitLines(text)| && Short(SplitLines(text)[i])
    ensures text == "" ==> r.crashed && r.ids == []
  {
    if text == "" then
      assert SplitLines(text) == [""];
      ScanLines(SplitLines(text), query)
    else
      ScanLines(SplitLines(text), query)
  }

  /** `find` as written. `texts` are the log files in listing order, the removed-branch log last when it
      exists. Because of `found = found || findOneFile(...)`, no file after the first one with a match is read. */
  function Find(texts: seq<string>, query: string): (r: Found)
    ensures r.err == None ==> |r.printed| > 0
  {
    FindFrom(texts, query, false)
  }

  function FindFrom(texts: seq<string>, query: string, found: bool): (r: Found)
    ensures r.err == None ==> found || |r.printed| > 0
    decreases |texts|
  {
    if texts == [] then Found([], if found then None else Some(NoMatch))
    else if found then Found([], None)
    else
      var s := ScanFile(texts[0], query);
      if s.crashed then Found(s.ids, Some(MissingField))
      else
        var rest := FindFrom(texts[1..], query, |s.ids| > 0);
        Found(s.ids + rest.printed, rest.err)
  }

  /** `find` with every file scanned: each match in each file is printed. */
  function FindAll(texts: seq<string>, query: string): (r: Found)
    ensures r.err == None ==> |r.printed| > 0
    ensures r.err == Some(NoMatch) ==> r.printed == []
    ensures r.err == None || r.err == Some(NoMatch) || r.err == Some(MissingField)
    decreases |texts|
  {
    if texts == [] then Found([], Some(NoMatch))
    else
      var s := ScanFile(texts[0], query);
      if s.crashed then Found(s.ids, Some(MissingField))
      else
        var rest := FindAll(texts[1..], query);
        Found(s.ids + rest.printed, if |s.ids| > 0 && rest.err == Some(NoMatch) then None else rest.err)
  }

  /** The ids of the entries carrying exactly `query`, in log order. */
  function Matches(es: seq<Entry>, query: string): seq<string> {
    if es == [] then [] else (if es[0].message == query then [es[0].sha] else []) + Matches(es[1..], query)
  }

  function AllMatches(logs: seq<seq<Entry>>, query: string): seq<string> {
    if logs == [] then [] else Matches(logs[0], query) + AllMatches(logs[1..], query)
  }

  function RenderAll(logs: seq<seq<Entry>>): (r: seq<string>)
    ensures |r| == |logs|
  {
    if logs == [] then [] else [Render(logs[0])] + RenderAll(logs[1..])
  }

  ghost predicate AllWritable(logs: seq<seq<Entry>>) {
    forall i, j :: 0 <= i < |logs| && 0 <= j < |logs[i]| ==> Writable(logs[i][j])
  }

  ghost predicate NonEmpty(logs: seq<seq<Entry>>) {
    forall i :: 0 <= i < |logs| ==> logs[i] != []
  }

  /** The first written line of a log is scanned as its entry: four fields, the message compared whole. */
  lemma ScanWrittenHead(es: seq<Entry>, query: string)
    requires es != [] && Writable(es[0])
    ensures var rest := ScanLines(Lines(es[1..]), query);
            ScanLines(Lines(es), query)
            == Scan((if es[0].message == query then [es[0].sha] else []) + rest.ids, rest.crashed)
  {
    LineFields(es[0]);
    assert Lines(es)[1..] == Lines(es[1..]);
  }

  /** Scanning the written lines of a log finds exactly the entries with the queried message. */
  lemma {:induction false} ScanWrittenLines(es: seq<Entry>, query: string)
    requires forall i :: 0 <= i < |es| ==> Writable(es[i])
    ensures ScanLines(Lines(es), query) == Scan(Matches(es, query), false)
  {
    if es != [] {
      ScanWrittenHead(es, query);
      ScanWrittenLines(es[1..], query);
    }
  }

  /** A non-empty written log file never crashes the scan, and its matches are reported in order. */
  lemma ScanWrittenFile(es: seq<Entry>, query: string)
    requires es != []
    requires forall i :: 0 <= i < |es| ==> Writable(es[i])
    ensures ScanFile(Render(es), query) == Scan(Matches(es, query), false)
  {
    LogFileRoundTrip(es);
    ScanWrittenLines(es, query);
  }

  /** An empty log file reads as one empty line, which has no second field. */
  lemma EmptyLogCrashes(query: string)
    ensures ScanFile("", query).crashed
  {
    assert SplitLines("") == [""];
    assert SplitN("", ' ', 4) == [""];
  }

  /** The corrected search prints every match of every log, and fails only when there is none. */
  lemma {:induction false} FindAllReports(logs: seq<seq<Entry>>, query: string)
    requires AllWritable(logs) && NonEmpty(logs)
    ensures FindAll(RenderAll(logs), query).printed == AllMatches(logs, query)
    ensures FindAll(RenderAll(logs), query).err == (if AllMatches(logs, query) == [] then Some(NoMatch) else None)
  {
    if logs != [] {
      ScanWrittenFile(logs[0], query);
      assert RenderAll(logs)[1..] == RenderAll(logs[1..]);
      assert AllWritable(logs[1..]) by {
        forall i, j | 0 <= i < |logs[1..]| && 0 <= j < |logs[1..][i]|
          ensures Writable(logs[1..][i][j])
        {
          assert logs[1..][i] == logs[i + 1];
        }
      }
      FindAllReports(logs[1..], query);
    }
  }

  /** The verdict of `find` as written is right: it fails exactly when no log holds a match. */
  lemma {:induction false} FindVerdict(logs: seq<seq<Entry>>, query: string, found: bool)
    requires AllWritable(logs) && NonEmpty(logs)
    ensures FindFrom(RenderAll(logs), query, found).err ==
            (if !found && AllMatches(logs, query) == [] then Some(NoMatch) else None)
  {
    if logs != [] && !found {
      ScanWrittenFile(logs[0], query);
      assert RenderAll(logs)[1..] == RenderAll(logs[1..]);
      assert AllWritable(logs[1..]) by {
        forall i, j | 0 <= i < |logs[1..]| && 0 <= j < |logs[1..][i]|
          ensures Writable(logs[1..][i][j])
        {
          assert logs[1..][i] == logs[i + 1];
        }
      }
      FindVerdict(logs[1..], query, |Matches(logs[0], query)| > 0);
    }
  }

  /** Once a log holds a match, `find` as written prints that log's matches and nothing from later logs. */
  lemma FindStopsAtFirstMatch(first: seq<Entry>, later: seq<seq<Entry>>, query: string)
    requires first != [] && forall i :: 0 <= i < |first| ==> Writable(first[i])
    requires Matches(first, query) != []
    ensures Find(RenderAll([first] + later), query) == Found(Matches(first, query), None)
  {
    var texts := RenderAll([first] + later);
    assert texts == [Render(first)] + RenderAll(later);
    ScanWrittenFile(first, query);
    FirstFileFound(Render(first), RenderAll(later), query);
  }

  lemma FirstFileFound(text: string, rest: seq<string>, query: string)
    requires !ScanFile(text, query).crashed && ScanFile(text, query).ids != []
    ensures Find([text] + rest, query) == Found(ScanFile(text, query).ids, None)
  {
    assert ([text] + rest)[1..] == rest;
    assert FindFrom(rest, query, true) == Found([], None);
    assert ScanFile(text, query).ids + [] == ScanFile(text, query).ids;
  }

  /** Two logs of one entry each, both carrying the queried message: `find` as written prints the first id only. */
  lemma TwoLogsFindFirst(e1: Entry, e2: Entry, query: string)
    requires Writable(e1) && Writable(e2) && e1.message == query
    ensures Find(RenderAll([[e1], [e2]]), query).printed == [e1.sha]
  {
    var logs := [[e1], [e2]];
    assert Matches([e1], query) == [e1.sha];
    FindStopsAtFirstMatch(logs[0], logs[1..], query);
    assert [logs[0]] + logs[1..] == logs;
  }

  /** The same two logs: the corrected search prints both ids. */
  lemma TwoLogsFindAll(e1: Entry, e2: Entry, query: string)
    requires Writable(e1) && Writable(e2) && e1.message == query && e2.message == query
    ensures FindAll(RenderAll([[e1], [e2]]), query).printed == [e1.sha, e2.sha]
  {
    var logs := [[e1], [e2]];
    assert AllWritable(logs) by {
      forall i, j | 0 <= i < |logs| && 0 <= j < |logs[i]| ensures Writable(logs[i][j]) {
        assert logs[i][j] == (if i == 0 then e1 else e2);
      }
    }
    assert Matches([e1], query) == [e1.sha];
    assert Matches([e2], query) == [e2.sha];
    assert logs[1..] == [[e2]] && logs[1..][1..] == [];
    assert AllMatches(logs[1..][1..], query) == [];
    assert AllMatches(logs[1..], query) == [e2.sha];
    assert AllMatches(logs, query) == [e1.sha] + [e2.sha];
    FindAllReports(logs, query);
  }

  /** Two branches each with a commit "fix": `find` as written reports only the first one's id. */
  lemma FindMissesSecondBranch()
    ensures Find(RenderAll([[Entry("p", "a", 1, "fix")], [Entry("p", "b", 2, "fix")]]), "fix").printed == ["a"]
    ensures FindAll(RenderAll([[Entry("p", "a", 1, "fix")], [Entry("p", "b", 2, "fix")]]), "fix").printed == ["a", "b"]
  {
    assert LongMin <= 2 <= LongMax;
    TwoLogsFindFirst(Entry("p", "a", 1, "fix"), Entry("p", "b", 2, "fix"), "fix");
    TwoLogsFindAll(Entry("p", "a", 1, "fix"), Entry("p", "b", 2, "fix"), "fix");
  }
}
