/** The `Cleanable` abstraction of src/cleanable.rs: a project rule as plain
    data, the match test, the size computation, the removal loop and the
    per-directory evaluation that sequences them. */
module Cleanable {
  import opened Fs

  /** One relative path of a rule, as components. `dirOnly` records a
      trailing slash: "target/" exists only when it is a directory. */
  datatype RulePath = RulePath(components: Path, dirOnly: bool)

  /** What one implementation of the trait supplies: `indicators()`,
      `to_remove()` and `context()`. */
  datatype Rule = Rule(indicators: seq<RulePath>, toRemove: seq<RulePath>, context: string)

  /** One line the engine prints: a match with its size, or a removal about
      to be attempted. */
  datatype Line = Found(context: string, dir: Path, size: nat) | Removing(path: Path)

  /** What a run of the engine leaves behind: the tree, the result and the
      printed lines. */
  datatype Step = Step(entries: Entries, result: Result<()>, lines: seq<Line>)

  /** `path.join(rp)` */
  function Join(dir: Path, rp: RulePath): Path {
    dir + rp.components
  }

  /** `path.join(rp).exists()` */
  predicate PathExists(e: Entries, dir: Path, rp: RulePath) {
    var p := Join(dir, rp);
    p in e && (rp.dirOnly ==> e[p].Dir?)
  }

  /** The iterator's `all` over existence checks, left to right. */
  function AllExist(e: Entries, dir: Path, rps: seq<RulePath>): (b: bool)
    ensures b <==> forall i :: 0 <= i < |rps| ==> PathExists(e, dir, rps[i])
  {
    if rps == [] then true
    else PathExists(e, dir, rps[0]) && AllExist(e, dir, rps[1..])
  }

  /** `contains_indicators`: every indicator and every path to remove exists
      under `dir`. It never fails and only looks. */
  function ContainsIndicators(rule: Rule, e: Entries, dir: Path): (r: Result<bool>)
    ensures r.Ok?
    ensures r.value <==>
              && (forall i :: 0 <= i < |rule.indicators| ==> PathExists(e, dir, rule.indicators[i]))
              && (forall j :: 0 <= j < |rule.toRemove| ==> PathExists(e, dir, rule.toRemove[j]))
  {
    AllExistChain(e, dir, rule.indicators, rule.toRemove);
    Ok(AllExist(e, dir, rule.indicators + rule.toRemove))
  }

  /** `all` over a chained iterator is the conjunction of `all` over each
      part. */
  lemma {:induction false} AllExistChain(e: Entries, dir: Path, a: seq<RulePath>, b: seq<RulePath>)
    ensures AllExist(e, dir, a + b) == (AllExist(e, dir, a) && AllExist(e, dir, b))
    decreases |a|
  {
    if a == [] {
      assert a + b == b;
    } else {
      assert (a + b)[0] == a[0];
      assert (a + b)[1..] == a[1..] + b;
      AllExistChain(e, dir, a[1..], b);
    }
  }

  /** Whether `rule` fires on `dir` in `e`. */
  predicate Matches(rule: Rule, e: Entries, dir: Path) {
    ContainsIndicators(rule, e, dir).value
  }

  /** A rule with nothing to look for matches every directory. */
  lemma EmptyRuleMatchesEverywhere(e: Entries, dir: Path, context: string)
    ensures Matches(Rule([], [], context), e, dir)
  {
  }

  /** Matching is conjunctive: taking away any single required path stops
      the rule from firing. */
  lemma MissingRequiredPathDefeatsMatch(rule: Rule, e: Entries, dir: Path, rp: RulePath)
    requires rp in rule.indicators || rp in rule.toRemove
    ensures !Matches(rule, e - {Join(dir, rp)}, dir)
  {
  }

  /** Whether a rule fires on `dir` depends on nothing outside `dir`'s
      subtree: a sibling's contents cannot change it. */
  lemma {:induction false} MatchDependsOnlyOnSubtree(rule: Rule, e1: Entries, e2: Entries, dir: Path)
    requires forall p :: dir <= p ==> (p in e1 <==> p in e2)
    requires forall p :: dir <= p && p in e1 && p in e2 ==> e1[p] == e2[p]
    ensures Matches(rule, e1, dir) == Matches(rule, e2, dir)
  {
  }

  /** Deleting entries can stop a rule from firing, never start it. */
  lemma {:induction false} MatchSurvivesOnlyFromBefore(rule: Rule, e0: Entries, e1: Entries, dir: Path)
    requires Shrinks(e0, e1)
    requires Matches(rule, e1, dir)
    ensures Matches(rule, e0, dir)
  {
  }

  // ----- size -----

  /** What `get_directory_size` returns. */
  ghost function DirectorySize(e: Entries, f: Faults, dir: Path): Result<nat> {
    if !IsDir(e, dir) then Ok(0)
    else if exists p :: p in Subtree(e, dir) && p in f.unreadable then Err(Walkdir)
    else Ok(SizeSum(e, Subtree(e, dir)))
  }

  /** `get_directory_size`: 0 for a non-directory; otherwise the sum of the
      sizes of the files and symbolic links under `dir`, unless the walk
      reaches an unreadable entry, which aborts with a walk error. */
  method GetDirectorySize(fs: FileTree, dir: Path) returns (r: Result<nat>)
    ensures r == DirectorySize(fs.entries, fs.faults, dir)
  {
    var total := 0;
    if IsDir(fs.entries, dir) {
      var all := Subtree(fs.entries, dir);
      var pending := all;
      while pending != {}
        invariant pending <= all
        invariant total + SizeSum(fs.entries, pending) == SizeSum(fs.entries, all)
        invariant forall p :: p in all && p !in pending ==> p !in fs.faults.unreadable
        decreases pending
      {
        var p :| p in pending;
        if p in fs.faults.unreadable {
          return Err(Walkdir);
        }
        SizeSumRemove(fs.entries, pending, p);
        var node := fs.entries[p];
        if node.File? || node.Symlink? {
          total := total + node.size;
        }
        pending := pending - {p};
      }
    }
    r := Ok(total);
  }

  /** Directories contribute nothing: the size of a subtree is that of its
      files and symbolic links alone. */
  lemma {:induction false} OnlyFilesAndLinksCount(e: Entries, dir: Path)
    ensures SizeSum(e, Subtree(e, dir)) == SizeSum(e, set p | p in Subtree(e, dir) && !e[p].Dir?)
  {
    var all := Subtree(e, dir);
    var leaves := set p | p in all && !e[p].Dir?;
    var dirs := set p | p in all && e[p].Dir?;
    assert all == leaves + dirs;
    SizeSumUnion(e, leaves, dirs);
    SizeSumOfZeroes(e, dirs);
  }

  /** Any collection of entries under `dir` weighs at most what `dir` does. */
  lemma {:induction false} PartsBoundDirectorySize(e: Entries, dir: Path, part: set<Path>)
    requires part <= Subtree(e, dir)
    ensures SizeSum(e, part) <= SizeSum(e, Subtree(e, dir))
  {
    SizeSumSubset(e, part, Subtree(e, dir));
  }

  // ----- removal -----

  /** Prefixes lines already printed to a later step. */
  function After(lines: seq<Line>, s: Step): Step {
    Step(s.entries, s.result, lines + s.lines)
  }

  lemma AfterAfter(a: seq<Line>, b: seq<Line>, s: Step)
    ensures After(a, After(b, s)) == After(a + b, s)
  {
  }

  /** What `clean` does with the paths still to remove under `dir`. */
  ghost function CleanEffect(e: Entries, f: Faults, dir: Path, targets: seq<RulePath>): Step
    decreases |targets|
  {
    if targets == [] then Step(e, Ok(()), [])
    else
      var p := Join(dir, targets[0]);
      if !CanRemove(e, f, p) then Step(e, Err(FileSystem), [Removing(p)])
      else After([Removing(p)], CleanEffect(RemoveTree(e, p), f, dir, targets[1..]))
  }

  /** One path's turn in `CleanEffect`. */
  lemma CleanStep(e: Entries, f: Faults, dir: Path, targets: seq<RulePath>, i: nat)
    requires i < |targets|
    ensures var p := Join(dir, targets[i]);
            CleanEffect(e, f, dir, targets[i..])
            == if !CanRemove(e, f, p) then Step(e, Err(FileSystem), [Removing(p)])
               else After([Removing(p)], CleanEffect(RemoveTree(e, p), f, dir, targets[i + 1..]))
  {
  }

  /** `clean`: announce and remove each path of `to_remove` in order,
      stopping at the first removal that fails. */
  method Clean(fs: FileTree, rule: Rule, dir: Path) returns (r: Result<()>, lines: seq<Line>)
    requires fs.Valid()
    modifies fs
    ensures fs.Valid()
    ensures Step(fs.entries, r, lines) == CleanEffect(old(fs.entries), fs.faults, dir, rule.toRemove)
  {
    lines := [];
    var i := 0;
    while i < |rule.toRemove|
      invariant 0 <= i <= |rule.toRemove|
      invariant fs.Valid()
      invariant CleanEffect(old(fs.entries), fs.faults, dir, rule.toRemove)
                == After(lines, CleanEffect(fs.entries, fs.faults, dir, rule.toRemove[i..]))
    {
      var target := Join(dir, rule.toRemove[i]);
      CleanStep(fs.entries, fs.faults, dir, rule.toRemove, i);
      AfterAfter(lines, [Removing(target)],
                 CleanEffect(RemoveTree(fs.entries, target), fs.faults, dir, rule.toRemove[i + 1..]));
      lines := lines + [Removing(target)];
      r := fs.RemoveDirAll(target);
      if r.Err? {
        return;
      }
      i := i + 1;
    }
    r := Ok(());
  }

  /** The tree with the subtrees at `dir + targets[i]` deleted one after
      another. */
  function RemoveTrees(e: Entries, dir: Path, targets: seq<RulePath>): Entries
    decreases |targets|
  {
    if targets == [] then e
    else RemoveTrees(RemoveTree(e, Join(dir, targets[0])), dir, targets[1..])
  }

  /** Exactly the entries under some `dir + targets[i]` are gone; the rest
      is untouched. */
  lemma {:induction false} RemoveTreesExactly(e: Entries, dir: Path, targets: seq<RulePath>)
    ensures Shrinks(e, RemoveTrees(e, dir, targets))
    ensures forall p :: p in RemoveTrees(e, dir, targets) <==>
                          p in e && forall i :: 0 <= i < |targets| ==> !(Join(dir, targets[i]) <= p)
    decreases |targets|
  {
    if targets != [] {
      var e1 := RemoveTree(e, Join(dir, targets[0]));
      RemoveTreesExactly(e1, dir, targets[1..]);
      ShrinksTransitive(e, e1, RemoveTrees(e1, dir, targets[1..]));
      forall p
        ensures p in RemoveTrees(e, dir, targets) <==>
                  p in e && forall i :: 0 <= i < |targets| ==> !(Join(dir, targets[i]) <= p)
      {
        if p in e && forall i :: 0 <= i < |targets| ==> !(Join(dir, targets[i]) <= p) {
          forall i | 0 <= i < |targets| - 1
            ensures !(Join(dir, targets[1..][i]) <= p)
          {
            assert targets[1..][i] == targets[i + 1];
          }
        }
        if p in RemoveTrees(e, dir, targets) {
          forall i | 0 <= i < |targets|
            ensures !(Join(dir, targets[i]) <= p)
          {
            if i > 0 {
              assert targets[1..][i - 1] == targets[i];
            }
          }
        }
      }
    }
  }

  /** `clean` announces the removals in the order of `to_remove`, each one
      just before it is attempted; it stops at the first failure, and the
      removals before it stay done. On success every path to remove has been
      removed. */
  lemma {:induction false} CleanOutcome(e: Entries, f: Faults, dir: Path, targets: seq<RulePath>)
    ensures var s := CleanEffect(e, f, dir, targets);
            var n := |s.lines|;
            && n <= |targets|
            && (forall i :: 0 <= i < n ==> s.lines[i] == Removing(Join(dir, targets[i])))
            && (s.result.Ok? ==> n == |targets| && s.entries == RemoveTrees(e, dir, targets))
            && (s.result.Err? ==>
                  && 0 < n
                  && s.result.error == FileSystem
                  && s.entries == RemoveTrees(e, dir, targets[..n - 1])
                  && !CanRemove(s.entries, f, Join(dir, targets[n - 1])))
  {
    CleanLines(e, f, dir, targets);
    CleanEntries(e, f, dir, targets);
  }

  /** The lines half of `CleanOutcome`. */
  lemma {:induction false} CleanLines(e: Entries, f: Faults, dir: Path, targets: seq<RulePath>)
    ensures var s := CleanEffect(e, f, dir, targets);
            && |s.lines| <= |targets|
            && (forall i :: 0 <= i < |s.lines| ==> s.lines[i] == Removing(Join(dir, targets[i])))
            && (s.result.Ok? ==> |s.lines| == |targets|)
            && (s.result.Err? ==> 0 < |s.lines| && s.result.error == FileSystem)
    decreases |targets|
  {
    if targets != [] {
      var p := Join(dir, targets[0]);
      if CanRemove(e, f, p) {
        var rest := CleanEffect(RemoveTree(e, p), f, dir, targets[1..]);
        CleanLines(RemoveTree(e, p), f, dir, targets[1..]);
        var s := CleanEffect(e, f, dir, targets);
        assert s.lines == [Removing(p)] + rest.lines;
        forall i | 0 < i < |s.lines|
          ensures s.lines[i] == Removing(Join(dir, targets[i]))
        {
          assert s.lines[i] == rest.lines[i - 1];
          assert targets[1..][i - 1] == targets[i];
        }
      }
    }
  }

  /** The entries half of `CleanOutcome`: what is left is the tree with the
      successfully removed subtrees gone, and on failure the last announced
      path could not be removed from it. */
  lemma {:induction false} CleanEntries(e: Entries, f: Faults, dir: Path, targets: seq<RulePath>)
    ensures var s := CleanEffect(e, f, dir, targets);
            var n := |s.lines|;
            && (s.result.Ok? ==> s.entries == RemoveTrees(e, dir, targets))
            && (s.result.Err? ==>
                  && 0 < n <= |targets|
                  && s.entries == RemoveTrees(e, dir, targets[..n - 1])
                  && !CanRemove(s.entries, f, Join(dir, targets[n - 1])))
    decreases |targets|
  {
    if targets != [] {
      var p := Join(dir, targets[0]);
      CleanLines(e, f, dir, targets);
      if CanRemove(e, f, p) {
        var rest := CleanEffect(RemoveTree(e, p), f, dir, targets[1..]);
        CleanEntries(RemoveTree(e, p), f, dir, targets[1..]);
        CleanLines(RemoveTree(e, p), f, dir, targets[1..]);
        if rest.result.Err? {
          var n := |rest.lines| + 1;
          assert targets[1..][..n - 2] == targets[1..n - 1];
          assert targets[..n - 1][1..] == targets[1..n - 1];
          assert targets[1..][n - 2] == targets[n - 1];
        }
      } else {
        assert targets[..0] == [];
      }
    }
  }

  /** `s` deletes entries of `e0` only (nothing is created or changed), and
      each deleted entry lies under a path announced for removal. */
  ghost predicate Confined(e0: Entries, e1: Entries, lines: seq<Line>) {
    && Shrinks(e0, e1)
    && forall p :: p in e0 && p !in e1 ==> exists l :: l in lines && l.Removing? && l.path <= p
  }

  lemma {:induction false} ConfinedThen(e0: Entries, e1: Entries, lines1: seq<Line>, e2: Entries, lines2: seq<Line>)
    requires Confined(e0, e1, lines1) && Confined(e1, e2, lines2)
    ensures Confined(e0, e2, lines1 + lines2)
  {
  }

  /** Without announced removals nothing changes. */
  lemma {:induction false} ConfinedWithoutRemovals(e0: Entries, e1: Entries, lines: seq<Line>)
    requires Confined(e0, e1, lines)
    requires forall l :: l in lines ==> l.Found?
    ensures e1 == e0
  {
  }

  /** `clean` deletes only the subtrees rooted at `dir + to_remove[i]`, and
      every removal it announces is one of those paths. */
  lemma {:induction false} CleanDeletesOnlyTargets(e: Entries, f: Faults, dir: Path, targets: seq<RulePath>)
    ensures var s := CleanEffect(e, f, dir, targets);
            && Confined(e, s.entries, s.lines)
            && forall l :: l in s.lines ==> l.Removing? && exists i :: 0 <= i < |targets| && l.path == Join(dir, targets[i])
  {
    CleanLinesAreTargets(e, f, dir, targets);
    CleanConfined(e, f, dir, targets);
  }

  lemma {:induction false} CleanLinesAreTargets(e: Entries, f: Faults, dir: Path, targets: seq<RulePath>)
    ensures var s := CleanEffect(e, f, dir, targets);
            forall l :: l in s.lines ==> l.Removing? && exists i :: 0 <= i < |targets| && l.path == Join(dir, targets[i])
  {
    var s := CleanEffect(e, f, dir, targets);
    CleanOutcome(e, f, dir, targets);
    forall l | l in s.lines
      ensures l.Removing? && exists i :: 0 <= i < |targets| && l.path == Join(dir, targets[i])
    {
      var i :| 0 <= i < |s.lines| && s.lines[i] == l;
    }
  }

  lemma {:induction false} CleanConfined(e: Entries, f: Faults, dir: Path, targets: seq<RulePath>)
    ensures var s := CleanEffect(e, f, dir, targets);
            Confined(e, s.entries, s.lines)
  {
    var s := CleanEffect(e, f, dir, targets);
    CleanOutcome(e, f, dir, targets);
    var n := |s.lines|;
    var done := if s.result.Ok? then targets else targets[..n - 1];
    assert s.entries == RemoveTrees(e, dir, done);
    RemoveTreesExactly(e, dir, done);
    forall p | p in e && p !in s.entries
      ensures exists l :: l in s.lines && l.Removing? && l.path <= p
    {
      var i :| 0 <= i < |done| && Join(dir, done[i]) <= p;
      assert s.lines[i] == Removing(Join(dir, done[i]));
    }
  }

  // ----- per-directory evaluation -----

  /** What `try_cleaning` does. */
  ghost function TryCleaningEffect(e: Entries, f: Faults, rule: Rule, dir: Path, dryRun: bool): Step {
    if !Matches(rule, e, dir) then Step(e, Ok(()), [])
    else
      match DirectorySize(e, f, dir)
      case Err(error) => Step(e, Err(error), [])
      case Ok(size) =>
        var found := [Found(rule.context, dir, size)];
        if dryRun then Step(e, Ok(()), found)
        else After(found, CleanEffect(e, f, dir, rule.toRemove))
  }

  /** `try_cleaning`: on a match, compute and report the size, then remove
      the rule's paths unless this is a dry run. */
  method TryCleaning(fs: FileTree, rule: Rule, dir: Path, dryRun: bool) returns (r: Result<()>, lines: seq<Line>)
    requires fs.Valid()
    modifies fs
    ensures fs.Valid()
    ensures Step(fs.entries, r, lines) == TryCleaningEffect(old(fs.entries), fs.faults, rule, dir, dryRun)
  {
    lines := [];
    var matched := ContainsIndicators(rule, fs.entries, dir).Extract();
    if matched {
      var size :- GetDirectorySize(fs, dir);
      lines := [Found(rule.context, dir, size)];
      if !dryRun {
        var removals;
        r, removals := Clean(fs, rule, dir);
        lines := lines + removals;
        return;
      }
    }
    r := Ok(());
  }

  /** The three ways `try_cleaning` can leave the tree alone, and the order
      of its work: no match means no effect at all; a dry run never changes
      the tree; on a match the size is that of the tree before any removal,
      and it is reported first. */
  lemma TryCleaningCases(e: Entries, f: Faults, rule: Rule, dir: Path, dryRun: bool)
    ensures var s := TryCleaningEffect(e, f, rule, dir, dryRun);
            && (!Matches(rule, e, dir) ==> s == Step(e, Ok(()), []))
            && (dryRun ==> s.entries == e && forall l :: l in s.lines ==> l.Found?)
            && (Matches(rule, e, dir) && s.lines != [] ==>
                  IsDir(e, dir) ==> s.lines[0] == Found(rule.context, dir, SizeSum(e, Subtree(e, dir))))
  {
  }

  /** Each rule path names something strictly below the matched directory. */
  predicate RemovesStrictlyBelow(rule: Rule) {
    forall j :: 0 <= j < |rule.toRemove| ==> rule.toRemove[j].components != []
  }

  /** Every removal announced in `lines` is strictly below a directory
      reported as a match in `lines`. */
  ghost predicate RemovalsBelowFound(lines: seq<Line>) {
    forall l :: l in lines && l.Removing? ==> exists m :: m in lines && m.Found? && m.dir < l.path
  }

  lemma {:induction false} RemovalsBelowFoundConcat(a: seq<Line>, b: seq<Line>)
    requires RemovalsBelowFound(a) && RemovalsBelowFound(b)
    ensures RemovalsBelowFound(a + b)
  {
  }

  /** The one case in which `try_cleaning` removes anything. */
  lemma TryCleaningRemoves(e: Entries, f: Faults, rule: Rule, dir: Path, dryRun: bool)
    ensures var s := TryCleaningEffect(e, f, rule, dir, dryRun);
            if Matches(rule, e, dir) && DirectorySize(e, f, dir).Ok? && !dryRun then
              s == After([Found(rule.context, dir, DirectorySize(e, f, dir).value)], CleanEffect(e, f, dir, rule.toRemove))
            else
              s.entries == e && forall l :: l in s.lines ==> l.Found? && l.dir == dir
  {
  }

  /** A match report followed by the removals of `clean` under the same
      directory. */
  lemma {:induction false} FoundThenRemovals(e: Entries, f: Faults, rule: Rule, dir: Path, found: Line)
    requires found.Found? && found.dir == dir
    ensures var c := CleanEffect(e, f, dir, rule.toRemove);
            var lines := [found] + c.lines;
            && Confined(e, c.entries, lines)
            && (forall l :: l in lines && l.Found? ==> l.dir == dir)
            && (RemovesStrictlyBelow(rule) ==> RemovalsBelowFound(lines))
  {
    var c := CleanEffect(e, f, dir, rule.toRemove);
    var lines := [found] + c.lines;
    CleanConfined(e, f, dir, rule.toRemove);
    CleanLinesAreTargets(e, f, dir, rule.toRemove);
    forall p | p in e && p !in c.entries
      ensures exists l :: l in lines && l.Removing? && l.path <= p
    {
      var l :| l in c.lines && l.Removing? && l.path <= p;
      assert l in lines;
    }
    if RemovesStrictlyBelow(rule) {
      RemovalsBelowReport(e, f, rule, dir, found);
    }
  }

  lemma {:induction false} RemovalsBelowReport(e: Entries, f: Faults, rule: Rule, dir: Path, found: Line)
    requires found.Found? && found.dir == dir
    requires RemovesStrictlyBelow(rule)
    ensures RemovalsBelowFound([found] + CleanEffect(e, f, dir, rule.toRemove).lines)
  {
    var c := CleanEffect(e, f, dir, rule.toRemove);
    var lines := [found] + c.lines;
    CleanLinesAreTargets(e, f, dir, rule.toRemove);
    forall l | l in lines && l.Removing?
      ensures exists m :: m in lines && m.Found? && m.dir < l.path
    {
      assert l in c.lines;
      var i :| 0 <= i < |rule.toRemove| && l.path == Join(dir, rule.toRemove[i]);
      assert dir < dir + rule.toRemove[i].components;
      assert found in lines;
    }
  }


  /** `try_cleaning` deletes only inside the subtrees it announces; it reports
      `dir` and nothing else; and for a rule whose paths lie strictly below
      the directory, every removal is strictly below the reported match. */
  lemma {:induction false} TryCleaningConfined(e: Entries, f: Faults, rule: Rule, dir: Path, dryRun: bool)
    ensures var s := TryCleaningEffect(e, f, rule, dir, dryRun);
            && Confined(e, s.entries, s.lines)
            && (forall l :: l in s.lines && l.Found? ==> l.dir == dir)
            && (dryRun ==> forall l :: l in s.lines ==> l.Found?)
            && (RemovesStrictlyBelow(rule) ==> RemovalsBelowFound(s.lines))
  {
    TryCleaningRemoves(e, f, rule, dir, dryRun);
    if Matches(rule, e, dir) && DirectorySize(e, f, dir).Ok? && !dryRun {
      FoundThenRemovals(e, f, rule, dir, Found(rule.context, dir, DirectorySize(e, f, dir).value));
    }
  }

  /** Idempotence: once `try_cleaning` has cleaned a match for real, the same
      rule no longer fires on that directory, so a second call does nothing. */
  lemma {:induction false} TryCleaningIdempotent(e: Entries, f: Faults, rule: Rule, dir: Path)
    requires rule.toRemove != []
    requires Matches(rule, e, dir)
    requires TryCleaningEffect(e, f, rule, dir, false).result.Ok?
    ensures var s := TryCleaningEffect(e, f, rule, dir, false);
            && !Matches(rule, s.entries, dir)
            && TryCleaningEffect(s.entries, f, rule, dir, false) == Step(s.entries, Ok(()), [])
  {
    var s := TryCleaningEffect(e, f, rule, dir, false);
    CleanOutcome(e, f, dir, rule.toRemove);
    RemoveTreesExactly(e, dir, rule.toRemove);
    assert Join(dir, rule.toRemove[0]) !in s.entries;
    assert !PathExists(s.entries, dir, rule.toRemove[0]);
  }

  /** No path to remove lies above or at an indicator path of `other`. */
  predicate SparesIndicatorsOf(rule: Rule, other: Rule) {
    forall j, i :: 0 <= j < |rule.toRemove| && 0 <= i < |other.indicators| ==>
      !(rule.toRemove[j].components <= other.indicators[i].components)
  }

  lemma {:induction false} JoinedPrefix(dir: Path, a: Path, b: Path)
    requires dir + a <= dir + b
    ensures a <= b
  {
    forall m | 0 <= m < |a|
      ensures a[m] == b[m]
    {
      assert (dir + a)[|dir| + m] == (dir + b)[|dir| + m];
    }
  }

  /** `clean` leaves alone every path that no path to remove covers. */
  lemma {:induction false} CleanSparesUncovered(e: Entries, f: Faults, dir: Path, targets: seq<RulePath>, rel: Path)
    requires forall j :: 0 <= j < |targets| ==> !(targets[j].components <= rel)
    requires dir + rel in e
    ensures var c := CleanEffect(e, f, dir, targets);
            dir + rel in c.entries && c.entries[dir + rel] == e[dir + rel]
    decreases |targets|
  {
    if targets != [] {
      var p := Join(dir, targets[0]);
      if CanRemove(e, f, p) {
        if p <= dir + rel {
          JoinedPrefix(dir, targets[0].components, rel);
        }
        assert forall j :: 0 <= j < |targets[1..]| ==> targets[1..][j] == targets[j + 1];
        CleanSparesUncovered(RemoveTree(e, p), f, dir, targets[1..], rel);
      }
    }
  }

  /** Cleaning a match leaves in place every indicator of `other` that existed
      before, when the rule's paths to remove do not cover them; so a
      directory keeps being recognised as the project it is. */
  lemma {:induction false} TryCleaningKeepsIndicators(e: Entries, f: Faults, rule: Rule, other: Rule, dir: Path, dryRun: bool)
    requires SparesIndicatorsOf(rule, other)
    ensures var s := TryCleaningEffect(e, f, rule, dir, dryRun);
            forall i :: 0 <= i < |other.indicators| && PathExists(e, dir, other.indicators[i]) ==>
              PathExists(s.entries, dir, other.indicators[i])
  {
    TryCleaningRemoves(e, f, rule, dir, dryRun);
    forall i | 0 <= i < |other.indicators| && PathExists(e, dir, other.indicators[i])
      ensures PathExists(TryCleaningEffect(e, f, rule, dir, dryRun).entries, dir, other.indicators[i])
    {
      CleanSparesUncovered(e, f, dir, rule.toRemove, other.indicators[i].components);
    }
  }
}
