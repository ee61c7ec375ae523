/** Status of the runs of a batch: the expansion of job names that run
    several cases on one node, the finished / running / failed partition of
    the batch's run folders, and the text-based description of unfinished
    runs (the current step, a possible stall, the reason of a failure). */
module RunStatus {
  import opened Wrappers
  import opened Seqs
  import opened Text
  import opened Order

  // ---------------------------------------------------------------------------
  // Several runs per node (parse_multiple_runs_per_node)
  // ---------------------------------------------------------------------------

  /** Python's `\w` restricted to ASCII: letters, digits and '_'. */
  predicate WordChar(c: char)
  {
    'a' <= c <= 'z' || 'A' <= c <= 'Z' || '0' <= c <= '9' || c == '_'
  }

  predicate IsWord(s: string)
  {
    |s| > 0 && forall i :: 0 <= i < |s| ==> WordChar(s[i])
  }

  predicate AllWords(cs: seq<string>)
  {
    forall k :: 0 <= k < |cs| ==> IsWord(cs[k])
  }

  /** The pattern `^\w+_\(\w+,\w+(,\w+)*\)$` with its parts named: a head of
      word characters ending in '_' (so at least two characters), then two or
      more words separated by ',' inside parentheses. */
  ghost predicate MultiRunShape(s: string, head: string, cs: seq<string>)
  {
    s == head + "(" + Join(cs, ",") + ")"
    && IsWord(head) && |head| >= 2 && head[|head| - 1] == '_'
    && |cs| >= 2 && AllWords(cs)
  }

  /** The head and the constituents of a job name that matches the pattern;
      None for any other name. */
  function MultiRun(s: string): (r: Option<(string, seq<string>)>)
    ensures r.Some? ==> MultiRunShape(s, r.value.0, r.value.1)
  {
    if |s| == 0 || s[|s| - 1] != ')' then None
    else
      var halves := Split(s, "(");
      if |halves| != 2 || |halves[1]| == 0 then None
      else
        var head, tail := halves[0], halves[1];
        var body := tail[..|tail| - 1];
        var cs := Split(body, ",");
        if IsWord(head) && |head| >= 2 && head[|head| - 1] == '_' && |cs| >= 2 && AllWords(cs) then
          assert s == head + "(" + Join(cs, ",") + ")" by {
            JoinSplit(s, "(");
            JoinPair(halves, "(");
            ParenGlue(s, head, tail);
            JoinSplit(body, ",");
          }
          Some((head, cs))
        else None
  }

  lemma JoinPair(parts: seq<string>, sep: string)
    requires |parts| == 2
    ensures Join(parts, sep) == parts[0] + sep + parts[1]
  {
    assert Join(parts[1..], sep) == parts[1];
  }

  /** Text of the form `head(tail` that ends in ')' is `head(body)`. */
  lemma ParenGlue(s: string, head: string, tail: string)
    requires s == head + "(" + tail && |tail| > 0 && s[|s| - 1] == ')'
    ensures s == head + "(" + tail[..|tail| - 1] + ")"
  {
    assert tail[|tail| - 1] == ')';
    assert tail == tail[..|tail| - 1] + ")";
  }

  /** A character that is neither in the separator nor in any part is not in
      the join. */
  lemma {:induction false} JoinLacks(parts: seq<string>, sep: string, c: char)
    requires c !in sep
    requires forall k :: 0 <= k < |parts| ==> c !in parts[k]
    ensures c !in Join(parts, sep)
    decreases |parts|
  {
    if |parts| > 1 {
      JoinLacks(parts[1..], sep, c);
    }
  }

  /** Two or more parts joined by ',' contain a ','. */
  lemma JoinHasSeparator(parts: seq<string>)
    requires |parts| >= 2
    ensures ',' in Join(parts, ",")
  {
    assert Join(parts, ",")[|parts[0]|] == ',';
  }

  lemma WordLacks(s: string, c: char)
    requires IsWord(s) && !WordChar(c)
    ensures c !in s
  {
  }

  /** Every name of the pattern is recognised, with its own head and
      constituents: together with the postcondition of `MultiRun`, a name
      matches exactly when `MultiRun` finds its parts. */
  lemma MultiRunOfShape(head: string, cs: seq<string>)
    requires IsWord(head) && |head| >= 2 && head[|head| - 1] == '_'
    requires |cs| >= 2 && AllWords(cs)
    ensures MultiRun(head + "(" + Join(cs, ",") + ")") == Some((head, cs))
  {
    var joined := Join(cs, ",");
    var tail := joined + ")";
    OpenParenSplit(head, cs);
    assert tail[..|tail| - 1] == joined;
    forall k | 0 <= k < |cs| ensures ',' !in cs[k] {
      WordLacks(cs[k], ',');
    }
    SplitJoin(cs, ',');
    MultiRunOfHalves(head + "(" + joined + ")", head, tail);
  }

  /** `MultiRun` on a name whose '(' halves are known. */
  lemma MultiRunOfHalves(s: string, head: string, tail: string)
    requires |s| > 0 && s[|s| - 1] == ')' && |tail| > 0
    requires Split(s, "(") == [head, tail]
    requires IsWord(head) && |head| >= 2 && head[|head| - 1] == '_'
    requires var cs := Split(tail[..|tail| - 1], ","); |cs| >= 2 && AllWords(cs)
    ensures MultiRun(s) == Some((head, Split(tail[..|tail| - 1], ",")))
  {
    var halves := Split(s, "(");
    assert |halves| == 2 && halves[0] == head && halves[1] == tail;
    var cs := Split(tail[..|tail| - 1], ",");
    assert IsWord(head) && |head| >= 2 && head[|head| - 1] == '_' && |cs| >= 2 && AllWords(cs);
  }

  /** The only '(' of a name of the pattern follows its head. */
  lemma OpenParenSplit(head: string, cs: seq<string>)
    requires IsWord(head) && AllWords(cs)
    ensures Split(head + "(" + Join(cs, ",") + ")", "(") == [head, Join(cs, ",") + ")"]
  {
    var joined := Join(cs, ",");
    forall k | 0 <= k < |cs| ensures '(' !in cs[k] && ',' !in cs[k] {
      WordLacks(cs[k], '(');
      WordLacks(cs[k], ',');
    }
    JoinLacks(cs, ",", '(');
    WordLacks(head, '(');
    assert head + "(" + joined + ")" == head + ['('] + (joined + ")");
    SplitPair(head, joined + ")", '(');
  }

  /** The names one job name stands for: the head followed by each
      constituent for a name of the pattern, otherwise the name itself. */
  function ExpandRun(s: string): seq<string>
  {
    match MultiRun(s)
    case None => [s]
    case Some((head, cs)) => seq(|cs|, k requires 0 <= k < |cs| => head + cs[k])
  }

  /** `foo_(bar,baz)` stands for `foo_bar` and `foo_baz`. */
  lemma ExpandRunOfShape(head: string, cs: seq<string>)
    requires IsWord(head) && |head| >= 2 && head[|head| - 1] == '_'
    requires |cs| >= 2 && AllWords(cs)
    ensures |ExpandRun(head + "(" + Join(cs, ",") + ")")| == |cs|
    ensures forall k :: 0 <= k < |cs| ==> ExpandRun(head + "(" + Join(cs, ",") + ")")[k] == head + cs[k]
  {
    MultiRunOfShape(head, cs);
  }

  /** A single constituent does not match the pattern: `foo_(bar)` is kept
      as it is. */
  lemma SingleConstituentKept(head: string, c: string)
    requires IsWord(head) && IsWord(c)
    ensures ExpandRun(head + "(" + c + ")") == [head + "(" + c + ")"]
  {
    var s := head + "(" + c + ")";
    if MultiRun(s).Some? {
      var h, cs := MultiRun(s).value.0, MultiRun(s).value.1;
      OpenParenSplit(h, cs);
      OpenParenSplit(head, [c]);
      assert Join([c], ",") == c;
      assert Join(cs, ",") + ")" == c + ")";
      assert Join(cs, ",") == c by {
        assert Join(cs, ",") == (Join(cs, ",") + ")")[..|Join(cs, ",")|];
      }
      JoinHasSeparator(cs);
      WordLacks(c, ',');
      assert false;
    }
  }

  /** Every job name expanded, in order. */
  function Expanded(runs: seq<string>): seq<string>
    decreases |runs|
  {
    if |runs| == 0 then [] else Expanded(runs[..|runs| - 1]) + ExpandRun(runs[|runs| - 1])
  }

  /** `parse_multiple_runs_per_node`: every job name expanded, sorted. */
  function ParseMultipleRuns(runs: seq<string>): (r: seq<string>)
    ensures SortedBy(r, Id)
    ensures multiset(r) == multiset(Expanded(runs))
  {
    SortBy(Expanded(runs), Id)
  }

  /** The constituents of all job names of the pattern. */
  function Constituents(runs: seq<string>): nat
    decreases |runs|
  {
    if |runs| == 0 then 0
    else
      Constituents(runs[..|runs| - 1])
      + match MultiRun(runs[|runs| - 1]) case None => 0 case Some((_, cs)) => |cs|
  }

  /** The job names that do not match the pattern. */
  function NonMatching(runs: seq<string>): nat
    decreases |runs|
  {
    if |runs| == 0 then 0
    else NonMatching(runs[..|runs| - 1]) + if MultiRun(runs[|runs| - 1]).None? then 1 else 0
  }

  /** The result has one name per constituent and one per other job name. */
  lemma {:induction false} ParseMultipleRunsCount(runs: seq<string>)
    ensures |ParseMultipleRuns(runs)| == Constituents(runs) + NonMatching(runs)
    decreases |runs|
  {
    if |runs| > 0 {
      ParseMultipleRunsCount(runs[..|runs| - 1]);
    }
  }

  /** A name is in the result exactly when some job name stands for it. */
  lemma ParseMultipleRunsMembers(runs: seq<string>, x: string)
    ensures x in ParseMultipleRuns(runs) <==> exists i :: 0 <= i < |runs| && x in ExpandRun(runs[i])
  {
    assert x in ParseMultipleRuns(runs) <==> x in multiset(Expanded(runs));
    ExpandedMembers(runs, x);
  }

  lemma {:induction false} ExpandedMembers(runs: seq<string>, x: string)
    ensures x in Expanded(runs) <==> exists i :: 0 <= i < |runs| && x in ExpandRun(runs[i])
    decreases |runs|
  {
    if |runs| > 0 {
      var before := runs[..|runs| - 1];
      ExpandedMembers(before, x);
      assert x in Expanded(runs) <==> x in Expanded(before) || x in ExpandRun(runs[|runs| - 1]);
      if exists i :: 0 <= i < |runs| && x in ExpandRun(runs[i]) {
        var i :| 0 <= i < |runs| && x in ExpandRun(runs[i]);
        if i < |runs| - 1 {
          assert runs[i] == before[i];
        }
      }
      if exists i :: 0 <= i < |before| && x in ExpandRun(before[i]) {
        var i :| 0 <= i < |before| && x in ExpandRun(before[i]);
        assert runs[i] == before[i];
      }
    }
  }

  // ---------------------------------------------------------------------------
  // Finished, running and failed runs (get_run_status)
  // ---------------------------------------------------------------------------

  /** `os.path.join(reeds_path, 'runs', name)`. */
  function RunDir(root: string, name: string): string
  {
    root + "/runs/" + name
  }

  /** `os.path.basename`: the text after the last '/'. */
  function Basename(path: string): (r: string)
    ensures '/' !in r
  {
    AfterLast(path, '/')
  }

  lemma BasenameRunDir(root: string, name: string)
    requires '/' !in name
    ensures Basename(RunDir(root, name)) == name
  {
    assert RunDir(root, name) == (root + "/runs") + ['/'] + name;
    SplitLastGlue(root + "/runs", name, '/');
  }

  /** The run folder of each name. */
  function RunDirs(root: string, names: seq<string>): (r: seq<string>)
    ensures |r| == |names|
    ensures forall i :: 0 <= i < |r| ==> r[i] == RunDir(root, names[i])
  {
    seq(|names|, i requires 0 <= i < |names| => RunDir(root, names[i]))
  }

  /** Each path moved to the run folder of its last component. */
  function Rehome(root: string, paths: seq<string>): (r: seq<string>)
    ensures |r| == |paths|
    ensures forall i :: 0 <= i < |r| ==> r[i] == RunDir(root, Basename(paths[i]))
  {
    seq(|paths|, i requires 0 <= i < |paths| => RunDir(root, Basename(paths[i])))
  }

  /** Paths that are run folders of `root`. */
  ghost predicate UnderRuns(root: string, paths: seq<string>)
  {
    forall p :: p in paths ==> p == RunDir(root, Basename(p))
  }

  lemma RehomeUnderRuns(root: string, paths: seq<string>)
    requires UnderRuns(root, paths)
    ensures Rehome(root, paths) == paths
  {
    forall i | 0 <= i < |paths| ensures Rehome(root, paths)[i] == paths[i] {
      assert paths[i] in paths;
    }
  }

  /** The three lists of run folders the status reports. */
  datatype Runs = Runs(finished: seq<string>, running: seq<string>, failed: seq<string>)

  /** The runs of the batch that hold the final report. */
  function Finished(all: seq<string>, reports: set<string>): seq<string>
  {
    Filter(all, p => p in reports)
  }

  /** The queued run names whose folder has not finished (several runs share
      a node, so one of them can finish while the job goes on). */
  function StillRunning(root: string, all: seq<string>, reports: set<string>, running: seq<string>): seq<string>
  {
    var finished := Finished(all, reports);
    Filter(running, n => RunDir(root, n) !in finished)
  }

  /** The split of the batch's run folders `all` given the folders holding a
      report, the names of the queued runs and the existing directories. */
  function Partition(root: string, all: seq<string>, reports: set<string>, running: seq<string>, dirs: set<string>): (r: Runs)
    ensures |r.finished| + |r.failed| <= |all|
    ensures forall i :: 0 <= i < |r.running| ==> r.running[i] in dirs
  {
    var finished := Finished(all, reports);
    var unfinished := Filter(all, p => p !in finished);
    var stillRunning := StillRunning(root, all, reports, running);
    var failed := Filter(unfinished, p => Basename(p) !in stillRunning);
    FinishedSplit(all, reports);
    Runs(Rehome(root, finished), Filter(RunDirs(root, stillRunning), p => p in dirs), Rehome(root, failed))
  }

  lemma {:induction false} FinishedSplit(all: seq<string>, reports: set<string>)
    ensures |Finished(all, reports)| + |Filter(all, p => p !in Finished(all, reports))| <= |all|
  {
    var finished := Finished(all, reports);
    var unfinished := Filter(all, p => p !in finished);
    forall p | p in unfinished ensures p !in reports {
      FilterMembers(all, p => p !in finished, p);
      FilterMembers(all, q => q in reports, p);
    }
    CountSplit(all, reports, finished, unfinished);
  }

  /** Elements with and without a mark, counted apart, are no more than all. */
  lemma {:induction false} CountSplit(all: seq<string>, marks: set<string>, a: seq<string>, b: seq<string>)
    requires a == Filter(all, p => p in marks)
    requires forall p :: p in b ==> p !in marks
    requires IsSubseq(b, all)
    ensures |a| + |b| <= |all|
    decreases |all|
  {
    if |all| > 0 {
      var all' := all[..|all| - 1];
      var x := all[|all| - 1];
      var a' := Filter(all', p => p in marks);
      if |b| > 0 && b[|b| - 1] == x {
        assert IsSubseq(b[..|b| - 1], all');
        assert x !in marks by {
          assert x in b;
        }
        CountSplit(all', marks, a', b[..|b| - 1]);
      } else {
        assert IsSubseq(b, all');
        CountSplit(all', marks, a', b);
      }
    }
  }

  lemma UnderRunsFilter(root: string, all: seq<string>, keep: string -> bool)
    requires UnderRuns(root, all)
    ensures UnderRuns(root, Filter(all, keep))
  {
    forall p | p in Filter(all, keep) ensures p == RunDir(root, Basename(p)) {
      FilterMembers(all, keep, p);
    }
  }

  lemma FinishedMembers(all: seq<string>, reports: set<string>, x: string)
    ensures x in Finished(all, reports) <==> x in all && x in reports
  {
    FilterMembers(all, p => p in reports, x);
  }

  lemma RunDirsMembers(root: string, names: seq<string>, x: string)
    ensures x in RunDirs(root, names) <==> exists n :: n in names && x == RunDir(root, n)
  {
    if exists n :: n in names && x == RunDir(root, n) {
      var n :| n in names && x == RunDir(root, n);
      var i :| 0 <= i < |names| && names[i] == n;
      assert RunDirs(root, names)[i] == x;
    }
  }

  /** A run is listed as finished exactly when it is a run of the batch that
      holds the report. */
  lemma PartitionFinished(root: string, all: seq<string>, reports: set<string>, running: seq<string>, dirs: set<string>, x: string)
    requires UnderRuns(root, all)
    ensures x in Partition(root, all, reports, running, dirs).finished <==> x in all && x in reports
  {
    UnderRunsFilter(root, all, p => p in reports);
    RehomeUnderRuns(root, Finished(all, reports));
    FinishedMembers(all, reports, x);
  }

  /** A run is listed as failed exactly when it is a run of the batch without
      the report whose name is not among the queued runs. */
  lemma PartitionFailed(root: string, all: seq<string>, reports: set<string>, running: seq<string>, dirs: set<string>, x: string)
    requires UnderRuns(root, all)
    ensures x in Partition(root, all, reports, running, dirs).failed
        <==> x in all && x !in reports && Basename(x) !in running
  {
    var finished := Finished(all, reports);
    var unfinished := Filter(all, p => p !in finished);
    var stillRunning := StillRunning(root, all, reports, running);
    var failed := Filter(unfinished, p => Basename(p) !in stillRunning);
    UnderRunsFilter(root, all, p => p !in finished);
    UnderRunsFilter(root, unfinished, p => Basename(p) !in stillRunning);
    RehomeUnderRuns(root, failed);
    FilterMembers(unfinished, p => Basename(p) !in stillRunning, x);
    FilterMembers(all, p => p !in finished, x);
    FinishedMembers(all, reports, x);
    FilterMembers(running, n => RunDir(root, n) !in finished, Basename(x));
    if x in all {
      assert RunDir(root, Basename(x)) == x;
    }
  }

  /** A run is listed as running exactly when it is an existing directory,
      the folder of a queued run name, and not a finished run. */
  lemma PartitionRunning(root: string, all: seq<string>, reports: set<string>, running: seq<string>, dirs: set<string>, x: string)
    ensures x in Partition(root, all, reports, running, dirs).running
        <==> x in dirs && (exists n :: n in running && x == RunDir(root, n)) && !(x in all && x in reports)
  {
    var finished := Finished(all, reports);
    var stillRunning := StillRunning(root, all, reports, running);
    FilterMembers(RunDirs(root, stillRunning), p => p in dirs, x);
    RunDirsMembers(root, stillRunning, x);
    FinishedMembers(all, reports, x);
    if exists n :: n in running && x == RunDir(root, n) && x !in finished {
      var n :| n in running && x == RunDir(root, n) && x !in finished;
      FilterMembers(running, n => RunDir(root, n) !in finished, n);
    }
    if exists n :: n in stillRunning && x == RunDir(root, n) {
      var n :| n in stillRunning && x == RunDir(root, n);
      FilterMembers(running, n => RunDir(root, n) !in finished, n);
    }
  }

  /** No run is both finished and failed or both finished and running, and
      every run of the batch is finished, failed, or queued. */
  lemma PartitionCovers(root: string, all: seq<string>, reports: set<string>, running: seq<string>, dirs: set<string>, x: string)
    requires UnderRuns(root, all)
    ensures var r := Partition(root, all, reports, running, dirs);
      !(x in r.finished && x in r.failed) && !(x in r.finished && x in r.running)
      && (x in all ==> x in r.finished || x in r.failed || Basename(x) in running)
  {
    PartitionFinished(root, all, reports, running, dirs, x);
    PartitionFailed(root, all, reports, running, dirs, x);
    PartitionRunning(root, all, reports, running, dirs, x);
  }

  // ---------------------------------------------------------------------------
  // File names
  // ---------------------------------------------------------------------------

  predicate AllDots(s: string)
  {
    forall i :: 0 <= i < |s| ==> s[i] == '.'
  }

  /** `os.path.splitext(p)[0]`: the path without the text from its last '.'
      on, when that '.' is in the last component and something other than
      dots precedes it there. */
  function StripExtension(p: string): (r: string)
    ensures |r| <= |p| && p[..|r|] == r
    ensures r != p ==> p[|r|] == '.' && '.' !in p[|r| + 1..] && '/' !in p[|r| + 1..]
  {
    match SplitLast(p, '.')
    case None => p
    case Some((a, b)) =>
      if '/' in b || AllDots(AfterLast(a, '/')) then p
      else
        assert p[..|a|] == a && p[|a| + 1..] == b;
        a
  }

  /** The extension comes off again: `splitext(stem + "." + ext)[0] == stem`
      for an extension without '.' or '/' after a stem whose last component
      is not only dots. */
  lemma StripExtensionOf(stem: string, ext: string)
    requires '.' !in ext && '/' !in ext
    requires !AllDots(AfterLast(stem, '/'))
    ensures StripExtension(stem + "." + ext) == stem
  {
    assert stem + "." + ext == stem + ['.'] + ext;
    SplitLastGlue(stem, ext, '.');
  }

  // ---------------------------------------------------------------------------
  // The batch and its runs
  // ---------------------------------------------------------------------------

  /** The batch asked for, or else the text before the first '_' of the
      greatest queued job name; IndexError when neither exists. */
  function BatchName(batch: string, jobs: seq<string>): (r: Result<string>)
    ensures r.Err? <==> |batch| == 0 && |jobs| == 0
    ensures r.Err? ==> r.error == IndexError("list index out of range")
    ensures |batch| > 0 ==> r == Ok(batch)
  {
    if |batch| > 0 then Ok(batch)
    else if |jobs| == 0 then Err(IndexError("list index out of range"))
    else
      var sorted := SortBy(jobs, Id);
      Ok(Split(sorted[|sorted| - 1], "_")[0])
  }

  /** The first '_' piece of a text is a prefix, without '_', followed by
      '_' unless it is the whole text. */
  lemma FirstPiece(s: string)
    ensures var h := Split(s, "_")[0];
      StartsWith(s, h) && '_' !in h && (|h| < |s| ==> s[|h|] == '_')
  {
    var parts := Split(s, "_");
    JoinSplit(s, "_");
    SplitPiecesLackChar(s, '_');
    if |parts| > 1 {
      assert Join(parts, "_") == parts[0] + "_" + Join(parts[1..], "_");
    }
  }

  /** Without a batch name, the batch is the leading piece of a queued job
      name that no other queued name exceeds. */
  lemma BatchNameOfGreatest(jobs: seq<string>)
    requires |jobs| > 0
    ensures var b := BatchName("", jobs).value;
      exists g :: g in jobs && (forall j :: j in jobs ==> StrLe(j, g))
        && StartsWith(g, b) && '_' !in b && (|b| < |g| ==> g[|b|] == '_')
  {
    var sorted := SortBy(jobs, Id);
    var g := sorted[|sorted| - 1];
    assert g in multiset(jobs);
    forall j | j in jobs ensures StrLe(j, g) {
      assert j in multiset(sorted);
      LastIsGreatest(sorted, j);
    }
    FirstPiece(g);
  }

  /** `sorted(glob(join(reeds_path, 'runs', batch_name + '*')))`: the folders
      under `runs` whose name starts with the batch name. */
  function BatchRuns(root: string, batch: string, folders: seq<string>): (r: seq<string>)
    ensures SortedBy(r, Id)
  {
    SortBy(RunDirs(root, Filter(folders, f => StartsWith(f, batch))), Id)
  }

  lemma BatchRunsMembers(root: string, batch: string, folders: seq<string>, x: string)
    ensures x in BatchRuns(root, batch, folders)
        <==> exists f :: f in folders && StartsWith(f, batch) && x == RunDir(root, f)
  {
    var kept := Filter(folders, f => StartsWith(f, batch));
    assert x in BatchRuns(root, batch, folders) <==> x in multiset(RunDirs(root, kept));
    RunDirsMembers(root, kept, x);
    if exists f :: f in folders && StartsWith(f, batch) && x == RunDir(root, f) {
      var f :| f in folders && StartsWith(f, batch) && x == RunDir(root, f);
      FilterMembers(folders, f => StartsWith(f, batch), f);
    }
    if exists f :: f in kept && x == RunDir(root, f) {
      var f :| f in kept && x == RunDir(root, f);
      FilterMembers(folders, f => StartsWith(f, batch), f);
    }
  }

  /** Folder names never hold '/', so every run of the batch is the run
      folder of its own name. */
  lemma BatchRunsUnderRuns(root: string, batch: string, folders: seq<string>)
    requires forall k :: 0 <= k < |folders| ==> '/' !in folders[k]
    ensures UnderRuns(root, BatchRuns(root, batch, folders))
  {
    forall x | x in BatchRuns(root, batch, folders) ensures x == RunDir(root, Basename(x)) {
      BatchRunsMembers(root, batch, folders, x);
      var f :| f in folders && StartsWith(f, batch) && x == RunDir(root, f);
      BasenameRunDir(root, f);
    }
  }

  /** The queue's job names without their extension. */
  function JobNames(jobs: seq<string>): (r: seq<string>)
    ensures |r| == |jobs|
    ensures forall i :: 0 <= i < |r| ==> r[i] == StripExtension(jobs[i])
  {
    seq(|jobs|, i requires 0 <= i < |jobs| => StripExtension(jobs[i]))
  }

  /** The queued runs of the batch, one name per run. */
  function Queued(batch: string, names: seq<string>): seq<string>
  {
    ParseMultipleRuns(Filter(names, j => StartsWith(j, batch)))
  }

  /** `get_run_status`: the queue listing `jobs`, the folder names under
      `runs`, the run folders that hold the final report and the existing
      directories stand for the scheduler and the file system. */
  function Status(root: string, batch: string, folders: seq<string>, reports: set<string>, jobs: seq<string>, dirs: set<string>): (r: Result<Runs>)
    ensures r.Err? <==> |batch| == 0 && |jobs| == 0
  {
    var names := JobNames(jobs);
    var b :- BatchName(batch, names);
    Ok(Partition(root, BatchRuns(root, b, folders), reports, Queued(b, names), dirs))
  }

  /** A run of the status is finished exactly when it is a folder of the
      batch holding the report, and failed exactly when it is a folder of
      the batch without the report that no queued job stands for. */
  lemma StatusRuns(root: string, batch: string, folders: seq<string>, reports: set<string>, jobs: seq<string>, dirs: set<string>, x: string)
    requires |batch| > 0
    requires forall k :: 0 <= k < |folders| ==> '/' !in folders[k]
    ensures var r := Status(root, batch, folders, reports, jobs, dirs).value;
      var ofBatch := exists f :: f in folders && StartsWith(f, batch) && x == RunDir(root, f);
      (x in r.finished <==> ofBatch && x in reports)
      && (x in r.failed <==> ofBatch && x !in reports && Basename(x) !in Queued(batch, JobNames(jobs)))
  {
    var all := BatchRuns(root, batch, folders);
    var queued := Queued(batch, JobNames(jobs));
    BatchRunsUnderRuns(root, batch, folders);
    BatchRunsMembers(root, batch, folders, x);
    PartitionFinished(root, all, reports, queued, dirs, x);
    PartitionFailed(root, all, reports, queued, dirs, x);
  }

  // ---------------------------------------------------------------------------
  // What an unfinished run is doing
  // ---------------------------------------------------------------------------

  /** The step shown for a run that has reached the report. */
  const ReportStep := "e_report.gms"

  /** Where a run stands according to its listing files. */
  datatype Progress =
    | NoInputs                                          // "failed in input_processing"
    | AtStep(last: string, previous: Option<string>)

  /** A listing file of the report step. */
  predicate IsReport(file: string)
  {
    StartsWith(Basename(file), "report")
  }

  /** The two auxiliary files kept among the listing files. */
  predicate IsAuxiliary(file: string)
  {
    Contains(file, "environment.csv") || Contains(file, "mcs_group_weights.csv")
  }

  /** `os.path.splitext(file)[0].split('_')[-1]`: the text after the last
      '_' of the path without its extension. */
  function StepOf(file: string): (r: string)
    ensures '_' !in r
  {
    AfterLast(StripExtension(file), '_')
  }

  /** The listing files that count: the auxiliary ones dropped, unless there
      is only one file. */
  function StepFiles(sorted: seq<string>): (r: seq<string>)
  {
    if |sorted| > 1 then Filter(sorted, f => !IsAuxiliary(f)) else sorted
  }

  /** The step of a run from the paths of its listing files: the report step
      once a report listing exists, otherwise the steps of the two greatest
      files that count, and NoInputs when none counts. */
  function LstStep(files: seq<string>): (r: Progress)
  {
    var sorted := SortBy(files, Id);
    if exists f :: f in files && IsReport(f) then AtStep(ReportStep, None)
    else
      var kept := StepFiles(sorted);
      if |kept| == 0 then NoInputs
      else AtStep(StepOf(kept[|kept| - 1]), if |kept| >= 2 then Some(StepOf(kept[|kept| - 2])) else None)
  }

  /** The report step is shown exactly when a report listing exists: no
      other file name yields it, since a step never holds '_'. */
  lemma LstStepReport(files: seq<string>)
    ensures LstStep(files) == AtStep(ReportStep, None) <==> exists f :: f in files && IsReport(f)
  {
    assert ReportStep[1] == '_';
  }

  lemma StepFilesMembers(sorted: seq<string>, x: string)
    ensures x in StepFiles(sorted) <==> x in sorted && (|sorted| <= 1 || !IsAuxiliary(x))
  {
    if |sorted| > 1 {
      FilterMembers(sorted, f => !IsAuxiliary(f), x);
    }
  }

  /** Only a run whose files are all auxiliary, and more than one, or that
      has none, failed before its first step. */
  lemma LstStepNoInputs(files: seq<string>)
    ensures LstStep(files) == NoInputs
        <==> (forall f :: f in files ==> !IsReport(f))
             && (|files| == 0 || (|files| > 1 && forall f :: f in files ==> IsAuxiliary(f)))
  {
    StepFilesEmpty(files);
  }

  lemma StepFilesEmpty(files: seq<string>)
    ensures |StepFiles(SortBy(files, Id))| == 0
        <==> |files| == 0 || (|files| > 1 && forall f :: f in files ==> IsAuxiliary(f))
  {
    var sorted := SortBy(files, Id);
    var kept := StepFiles(sorted);
    if |kept| > 0 {
      StepFilesMembers(sorted, kept[0]);
      assert kept[0] in multiset(sorted);
    }
    if exists f :: f in files && (|files| <= 1 || !IsAuxiliary(f)) {
      var f :| f in files && (|files| <= 1 || !IsAuxiliary(f));
      assert f in multiset(sorted);
      StepFilesMembers(sorted, f);
    }
  }

  /** The step shown is that of a file that counts and that no other file
      that counts exceeds. */
  lemma LstStepLatest(files: seq<string>)
    requires LstStep(files).AtStep? && forall f :: f in files ==> !IsReport(f)
    ensures exists g ::
      && g in files && (|files| <= 1 || !IsAuxiliary(g))
      && LstStep(files).last == StepOf(g)
      && forall f :: f in files && (|files| <= 1 || !IsAuxiliary(f)) ==> StrLe(f, g)
  {
    var sorted := SortBy(files, Id);
    var kept := StepFiles(sorted);
    var g := kept[|kept| - 1];
    if |sorted| > 1 {
      FilterSortedBy(sorted, f => !IsAuxiliary(f), Id);
    }
    assert SortedBy(kept, Id);
    StepFilesMembers(sorted, g);
    assert g in multiset(sorted);
    forall f | f in files && (|files| <= 1 || !IsAuxiliary(f)) ensures StrLe(f, g) {
      assert f in multiset(sorted);
      StepFilesMembers(sorted, f);
      LastIsGreatest(kept, f);
    }
  }

  /** The step of `<stem>_<tag>.<ext>` is `tag`, for a tag without '_', '.'
      or '/' and an extension without '.' or '/'. */
  lemma StepOfTagged(stem: string, tag: string, ext: string)
    requires '_' !in tag && '.' !in tag && '/' !in tag
    requires '.' !in ext && '/' !in ext
    ensures StepOf(stem + "_" + tag + "." + ext) == tag
  {
    var named := stem + "_" + tag;
    var last := AfterLast(named, '/');
    assert !AllDots(last) by {
      if '/' in named {
        var i :| 0 <= i < |named| && named[i] == '/' && last == named[i + 1..];
        assert i < |stem|;
        assert last[|stem| - i - 1] == named[|stem|] == '_';
      } else {
        assert last[|stem|] == '_';
      }
    }
    StripExtensionOf(named, ext);
    assert named == stem + ['_'] + tag;
    SplitLastGlue(stem, tag, '_');
  }

  /** What the log shows when the adequacy model has stalled. */
  const StallPhrase := "signal (6): Aborted"

  /** The last five lines of the log, or all of a shorter one. */
  function LastFive(lines: seq<string>): (r: seq<string>)
    ensures |r| == if |lines| < 5 then |lines| else 5
  {
    if |lines| <= 5 then lines else lines[|lines| - 5..]
  }

  /** The warning for a running run: the stall message in the last five
      lines of its log, joined. */
  predicate Stalled(lines: seq<string>)
  {
    Contains(Join(LastFive(lines), ""), StallPhrase)
  }

  /** Every part of a join lies between the parts before and after it. */
  lemma {:induction false} JoinAround(parts: seq<string>, k: nat)
    requires k < |parts|
    ensures exists before, after :: Join(parts, "") == before + parts[k] + after
    decreases k
  {
    if k == 0 {
      if |parts| == 1 {
        assert Join(parts, "") == "" + parts[0] + "";
      } else {
        assert Join(parts, "") == "" + parts[0] + ("" + Join(parts[1..], ""));
      }
    } else {
      JoinAround(parts[1..], k - 1);
      var before, after :| Join(parts[1..], "") == before + parts[1..][k - 1] + after;
      assert Join(parts, "") == (parts[0] + before) + parts[k] + after;
    }
  }

  /** The stall message on one of the last five lines gives the warning. */
  lemma StalledByLine(lines: seq<string>, k: nat)
    requires |lines| - 5 <= k < |lines|
    requires Contains(lines[k], StallPhrase)
    ensures Stalled(lines)
  {
    var recent := LastFive(lines);
    var j := if |lines| <= 5 then k else k - (|lines| - 5);
    assert recent[j] == lines[k];
    JoinAround(recent, j);
    var before, after :| Join(recent, "") == before + recent[j] + after;
    ContainsExtend(lines[k], StallPhrase, before, after);
  }

  /** Lines as `readlines` gives them: every line but the last ends with
      its newline. */
  ghost predicate ReadLines(lines: seq<string>)
  {
    forall i :: 0 <= i < |lines| - 1 ==> |lines[i]| > 0 && lines[i][|lines[i]| - 1] == '\n'
  }

  /** The converse of `StalledByLine` on lines as `readlines` gives them:
      the message holds no newline, so it cannot straddle two lines, and the
      warning means it is on one of the last five. */
  lemma StalledOnLine(lines: seq<string>)
    requires ReadLines(lines) && Stalled(lines)
    ensures exists k :: 0 <= k < |lines| && |lines| - 5 <= k && Contains(lines[k], StallPhrase)
  {
    var recent := LastFive(lines);
    var d := |lines| - |recent|;
    assert forall i :: 0 <= i < |recent| ==> recent[i] == lines[d + i];
    var j := Find(Join(recent, ""), StallPhrase).value;
    assert |recent| > 0;
    assert '\n' !in StallPhrase;
    var q := OccursInPart(recent, StallPhrase, j);
    assert recent[q] == lines[d + q];
  }

  /** An occurrence of newline-free text in joined lines lies in one line. */
  lemma {:induction false} OccursInPart(parts: seq<string>, p: string, j: nat) returns (q: nat)
    requires |parts| > 0 && ReadLines(parts) && '\n' !in p && OccursAt(Join(parts, ""), p, j)
    ensures q < |parts| && Contains(parts[q], p)
    decreases |parts|
  {
    var t := Join(parts, "");
    if |parts| == 1 {
      ContainsIff(parts[0], p);
      q := 0;
    } else {
      var rest := Join(parts[1..], "");
      assert t == parts[0] + rest;
      NoStraddle(parts[0], rest, p, j);
      if j + |p| <= |parts[0]| {
        assert parts[0][j..j + |p|] == t[j..j + |p|];
        assert OccursAt(parts[0], p, j);
        ContainsIff(parts[0], p);
        q := 0;
      } else {
        var j' := j - |parts[0]|;
        assert rest[j'..j' + |p|] == t[j..j + |p|];
        assert ReadLines(parts[1..]) by {
          forall i | 0 <= i < |parts[1..]| - 1
            ensures |parts[1..][i]| > 0 && parts[1..][i][|parts[1..][i]| - 1] == '\n'
          {
            assert parts[1..][i] == parts[i + 1];
          }
        }
        var q' := OccursInPart(parts[1..], p, j');
        q := q' + 1;
      }
    }
  }

  /** Text that spans the newline ending `first` holds a newline. */
  lemma NoStraddle(first: string, rest: string, p: string, j: nat)
    requires |first| > 0 && first[|first| - 1] == '\n' && OccursAt(first + rest, p, j)
    ensures j < |first| < j + |p| ==> '\n' in p
  {
    if j < |first| < j + |p| {
      var t := first + rest;
      assert t[|first| - 1] == '\n';
      assert p[|first| - 1 - j] == t[j..j + |p|][|first| - 1 - j];
    }
  }

  /** Lines older than the last five never matter: a restart that stalled
      and recovered earlier is not reported. */
  lemma StalledIgnoresOlder(older: seq<string>, recent: seq<string>)
    requires |recent| >= 5
    ensures Stalled(older + recent) <==> Stalled(recent)
  {
    assert LastFive(older + recent) == LastFive(recent);
  }

  /** The reason shown for a failed run, from its scheduler log: the time
      limit first, then the dual objective limit, then infeasibility. */
  function FailureReason(slurm: string): (r: string)
    ensures r == "" <==>
      && !(Contains(slurm, "CANCELLED AT") && Contains(slurm, "DUE TO TIME LIMIT"))
      && !Contains(slurm, "dual objective limit exceeded")
      && !Contains(slurm, "d_solveoneyear.gms failed with return code 3")
  {
    if Contains(slurm, "CANCELLED AT") && Contains(slurm, "DUE TO TIME LIMIT") then "(timed out)"
    else if Contains(slurm, "dual objective limit exceeded") then "(hit dual obj. limit)"
    else if Contains(slurm, "d_solveoneyear.gms failed with return code 3") then "(infeasible)"
    else ""
  }

  /** More log text never hides a time-out: once the log says it, any log
      that contains it says it too. */
  lemma TimedOutPersists(slurm: string, before: string, after: string)
    requires FailureReason(slurm) == "(timed out)"
    ensures FailureReason(before + slurm + after) == "(timed out)"
  {
    ContainsExtend(slurm, "CANCELLED AT", before, after);
    ContainsExtend(slurm, "DUE TO TIME LIMIT", before, after);
  }

  /** A reason other than the time-out is shown only when the log does not
      show a time-out, and infeasibility only without the dual limit. */
  lemma FailureReasonPriority(slurm: string)
    ensures FailureReason(slurm) == "(hit dual obj. limit)"
        <==> !(Contains(slurm, "CANCELLED AT") && Contains(slurm, "DUE TO TIME LIMIT"))
             && Contains(slurm, "dual objective limit exceeded")
    ensures FailureReason(slurm) == "(infeasible)"
        <==> !(Contains(slurm, "CANCELLED AT") && Contains(slurm, "DUE TO TIME LIMIT"))
             && !Contains(slurm, "dual objective limit exceeded")
             && Contains(slurm, "d_solveoneyear.gms failed with return code 3")
  {
  }

  /** The reason for a failed run from the greatest-named of its scheduler
      logs, given as (name, text); IndexError when it has none. */
  function FailureReport(logs: seq<(string, string)>): (r: Result<string>)
    ensures r.Err? <==> |logs| == 0
  {
    if |logs| == 0 then Err(IndexError("list index out of range"))
    else
      var sorted := SortBy(logs, (l: (string, string)) => l.0);
      Ok(FailureReason(sorted[|sorted| - 1].1))
  }

  /** The reason read is that of a log whose name no other log exceeds. */
  lemma FailureReportLatest(logs: seq<(string, string)>)
    requires |logs| > 0
    ensures exists l ::
      && l in logs && FailureReport(logs) == Ok(FailureReason(l.1))
      && forall m :: m in logs ==> StrLe(m.0, l.0)
  {
    var name := (l: (string, string)) => l.0;
    var sorted := SortBy(logs, name);
    var l := sorted[|sorted| - 1];
    assert l in multiset(logs);
    forall m | m in logs ensures StrLe(m.0, l.0) {
      assert m in multiset(sorted);
      LastIsGreatestBy(sorted, name, m);
    }
  }
}
