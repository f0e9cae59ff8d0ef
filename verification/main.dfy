/** The driver of src/main.rs: the table of known project types, the walk
    over one root that tries every rule on every directory, and the loop over
    the roots given on the command line. */
module Gari {
  import opened Fs
  import opened Cleanable

  const CargoProject: Rule :=
    Rule([RulePath(["Cargo.toml"], false), RulePath(["src"], true)], [RulePath(["target"], true)], "Cargo")

  const CMakeProject: Rule :=
    Rule([RulePath(["CMakeLists.txt"], false)], [RulePath(["build"], false)], "CMake")

  const ZigProject: Rule :=
    Rule([RulePath(["build.zig"], false), RulePath(["src"], true)],
         [RulePath(["zig-out"], false), RulePath(["zig-cache"], false)], "Zig")

  /** `CLEANERS`, in table order. */
  const Cleaners: seq<Rule> := [CargoProject, CMakeProject, ZigProject]

  /** Every rule of the table removes strictly below the matched directory,
      has something to remove, and never removes an indicator of any rule of
      the table (so cleaning one project type cannot hide another). */
  lemma CleanersAreSafe()
    ensures |Cleaners| == 3
    ensures forall k :: 0 <= k < |Cleaners| ==> RemovesStrictlyBelow(Cleaners[k]) && Cleaners[k].toRemove != []
    ensures forall a, b :: 0 <= a < |Cleaners| && 0 <= b < |Cleaners| ==> SparesIndicatorsOf(Cleaners[a], Cleaners[b])
  {
    assert "zig-cache"[0] != "build.zig"[0];
    forall a, b, j, i | 0 <= a < |Cleaners| && 0 <= b < |Cleaners|
                        && 0 <= j < |Cleaners[a].toRemove| && 0 <= i < |Cleaners[b].indicators|
      ensures !(Cleaners[a].toRemove[j].components <= Cleaners[b].indicators[i].components)
    {
      var x := Cleaners[a].toRemove[j].components;
      var y := Cleaners[b].indicators[i].components;
      assert |x| == |y| == 1 && x[0] != y[0];
    }
  }

  /** One item of a `WalkDir` iteration: a path, or an error. */
  datatype WalkItem = Visit(path: Path) | Failed

  /** The walk `WalkDir::new(root)` yields over a given tree, before the
      directory filter. */
  type Walker = (Entries, Path) -> seq<WalkItem>

  /** `WalkDir` only yields paths under its root. */
  ghost predicate WalkerStaysUnder(walker: Walker) {
    forall e, root, item :: item in walker(e, root) && item.Visit? ==> root <= item.path
  }

  /** Trying `rules` in order on `dir`, stopping at the first error. */
  ghost function DirectoryEffect(e: Entries, f: Faults, rules: seq<Rule>, dir: Path, dryRun: bool): Step
    decreases |rules|
  {
    if rules == [] then Step(e, Ok(()), [])
    else
      var s := TryCleaningEffect(e, f, rules[0], dir, dryRun);
      if s.result.Err? then s
      else After(s.lines, DirectoryEffect(s.entries, f, rules[1..], dir, dryRun))
  }

  /** What `clean(path, dry_run)` does with the items of its walk: an error
      item aborts; a path that is not a directory when it is reached is
      skipped; a directory gets every rule of the table. */
  ghost function WalkEffect(e: Entries, f: Faults, items: seq<WalkItem>, dryRun: bool): Step
    decreases |items|
  {
    if items == [] then Step(e, Ok(()), [])
    else
      match items[0]
      case Failed => Step(e, Err(Walkdir), [])
      case Visit(p) =>
        if !IsDir(e, p) then WalkEffect(e, f, items[1..], dryRun)
        else
          var s := DirectoryEffect(e, f, Cleaners, p, dryRun);
          if s.result.Err? then s
          else After(s.lines, WalkEffect(s.entries, f, items[1..], dryRun))
  }

  /** What `main` does: clean each root in order, each with a walk taken
      afresh on the tree as the previous roots left it, stopping at the first
      error. */
  ghost function RunEffect(e: Entries, f: Faults, walker: Walker, roots: seq<Path>, check: bool): Step
    decreases |roots|
  {
    if roots == [] then Step(e, Ok(()), [])
    else
      var s := WalkEffect(e, f, walker(e, roots[0]), check);
      if s.result.Err? then s
      else After(s.lines, RunEffect(s.entries, f, walker, roots[1..], check))
  }

  /** One rule's turn in `DirectoryEffect`. */
  lemma DirectoryStep(e: Entries, f: Faults, rules: seq<Rule>, k: nat, dir: Path, dryRun: bool)
    requires k < |rules|
    ensures var t := TryCleaningEffect(e, f, rules[k], dir, dryRun);
            DirectoryEffect(e, f, rules[k..], dir, dryRun)
            == if t.result.Err? then t else After(t.lines, DirectoryEffect(t.entries, f, rules[k + 1..], dir, dryRun))
  {
  }

  /** The body of the walk loop in `clean`: the rules of a table, in order,
      on one directory, stopping at the first error. */
  method CleanDirectory(fs: FileTree, rules: seq<Rule>, dir: Path, dryRun: bool) returns (r: Result<()>, lines: seq<Line>)
    requires fs.Valid()
    modifies fs
    ensures fs.Valid()
    ensures Step(fs.entries, r, lines) == DirectoryEffect(old(fs.entries), fs.faults, rules, dir, dryRun)
  {
    lines := [];
    var k := 0;
    while k < |rules|
      invariant 0 <= k <= |rules|
      invariant fs.Valid()
      invariant DirectoryEffect(old(fs.entries), fs.faults, rules, dir, dryRun)
                == After(lines, DirectoryEffect(fs.entries, fs.faults, rules[k..], dir, dryRun))
    {
      DirectoryStep(fs.entries, fs.faults, rules, k, dir, dryRun);
      var result, printed := TryCleaning(fs, rules[k], dir, dryRun);
      AfterAfter(lines, printed, DirectoryEffect(fs.entries, fs.faults, rules[k + 1..], dir, dryRun));
      lines := lines + printed;
      if result.Err? {
        return result, lines;
      }
      k := k + 1;
    }
    r := Ok(());
  }

  /** One item's turn in `WalkEffect`. */
  lemma WalkStep(e: Entries, f: Faults, items: seq<WalkItem>, i: nat, dryRun: bool)
    requires i < |items|
    ensures WalkEffect(e, f, items[i..], dryRun)
            == match items[i]
               case Failed => Step(e, Err(Walkdir), [])
               case Visit(p) =>
                 if !IsDir(e, p) then WalkEffect(e, f, items[i + 1..], dryRun)
                 else
                   var s := DirectoryEffect(e, f, Cleaners, p, dryRun);
                   if s.result.Err? then s else After(s.lines, WalkEffect(s.entries, f, items[i + 1..], dryRun))
  {
  }

  /** One root's turn in `RunEffect`. */
  lemma RunStep(e: Entries, f: Faults, walker: Walker, roots: seq<Path>, i: nat, check: bool)
    requires i < |roots|
    ensures var s := WalkEffect(e, f, walker(e, roots[i]), check);
            RunEffect(e, f, walker, roots[i..], check)
            == if s.result.Err? then s else After(s.lines, RunEffect(s.entries, f, walker, roots[i + 1..], check))
  {
  }

  /** `clean(path, dry_run)` */
  method CleanRoot(fs: FileTree, walker: Walker, root: Path, dryRun: bool) returns (r: Result<()>, lines: seq<Line>)
    requires fs.Valid()
    modifies fs
    ensures fs.Valid()
    ensures Step(fs.entries, r, lines) == WalkEffect(old(fs.entries), fs.faults, walker(old(fs.entries), root), dryRun)
  {
    var walk := walker(fs.entries, root);
    lines := [];
    var i := 0;
    while i < |walk|
      invariant 0 <= i <= |walk|
      invariant fs.Valid()
      invariant WalkEffect(old(fs.entries), fs.faults, walk, dryRun)
                == After(lines, WalkEffect(fs.entries, fs.faults, walk[i..], dryRun))
    {
      WalkStep(fs.entries, fs.faults, walk, i, dryRun);
      match walk[i] {
        case Failed =>
          return Err(Walkdir), lines;
        case Visit(path) =>
          if IsDir(fs.entries, path) {
            var result, printed := CleanDirectory(fs, Cleaners, path, dryRun);
            AfterAfter(lines, printed, WalkEffect(fs.entries, fs.faults, walk[i + 1..], dryRun));
            lines := lines + printed;
            if result.Err? {
              return result, lines;
            }
          }
      }
      i := i + 1;
    }
    r := Ok(());
  }

  /** `main`: the roots in the order given, with the `--check` flag as the
      dry-run switch. */
  method Run(fs: FileTree, walker: Walker, roots: seq<Path>, check: bool) returns (r: Result<()>, lines: seq<Line>)
    requires fs.Valid()
    modifies fs
    ensures fs.Valid()
    ensures Step(fs.entries, r, lines) == RunEffect(old(fs.entries), fs.faults, walker, roots, check)
  {
    lines := [];
    var i := 0;
    while i < |roots|
      invariant 0 <= i <= |roots|
      invariant fs.Valid()
      invariant RunEffect(old(fs.entries), fs.faults, walker, roots, check)
                == After(lines, RunEffect(fs.entries, fs.faults, walker, roots[i..], check))
    {
      RunStep(fs.entries, fs.faults, walker, roots, i, check);
      var result, printed := CleanRoot(fs, walker, roots[i], check);
      AfterAfter(lines, printed, RunEffect(fs.entries, fs.faults, walker, roots[i + 1..], check));
      lines := lines + printed;
      if result.Err? {
        return result, lines;
      }
      i := i + 1;
    }
    r := Ok(());
  }

  // ----- what a run may delete -----

  /** One directory: deletions stay inside announced removals, only `dir` is
      reported, a dry run announces no removal, and removals lie strictly
      below the reported match. */
  lemma {:induction false} DirectoryConfined(e: Entries, f: Faults, rules: seq<Rule>, dir: Path, dryRun: bool)
    ensures var s := DirectoryEffect(e, f, rules, dir, dryRun);
            && Confined(e, s.entries, s.lines)
            && (forall l :: l in s.lines && l.Found? ==> l.dir == dir)
            && (dryRun ==> forall l :: l in s.lines ==> l.Found?)
            && ((forall k :: 0 <= k < |rules| ==> RemovesStrictlyBelow(rules[k])) ==> RemovalsBelowFound(s.lines))
    decreases |rules|
  {
    if rules != [] {
      var t := TryCleaningEffect(e, f, rules[0], dir, dryRun);
      TryCleaningConfined(e, f, rules[0], dir, dryRun);
      if t.result.Ok? {
        var rest := DirectoryEffect(t.entries, f, rules[1..], dir, dryRun);
        DirectoryConfined(t.entries, f, rules[1..], dir, dryRun);
        ConfinedThen(e, t.entries, t.lines, rest.entries, rest.lines);
        if forall k :: 0 <= k < |rules| ==> RemovesStrictlyBelow(rules[k]) {
          assert forall k :: 0 <= k < |rules[1..]| ==> rules[1..][k] == rules[k + 1];
          RemovalsBelowFoundConcat(t.lines, rest.lines);
        }
      }
    }
  }

  /** One root: deletions stay inside announced removals, which lie strictly
      below reported matches; every reported match is a path the walk yielded
      that was a directory of the tree before the walk; a dry run announces
      no removal. */
  lemma {:induction false} WalkConfined(e: Entries, f: Faults, items: seq<WalkItem>, dryRun: bool)
    ensures var s := WalkEffect(e, f, items, dryRun);
            && Confined(e, s.entries, s.lines)
            && RemovalsBelowFound(s.lines)
            && (forall l :: l in s.lines && l.Found? ==> Visit(l.dir) in items && IsDir(e, l.dir))
            && (dryRun ==> forall l :: l in s.lines ==> l.Found?)
    decreases |items|
  {
    if items != [] && items[0].Visit? {
      var p := items[0].path;
      var s := WalkEffect(e, f, items, dryRun);
      if !IsDir(e, p) {
        WalkConfined(e, f, items[1..], dryRun);
      } else {
        var d := DirectoryEffect(e, f, Cleaners, p, dryRun);
        CleanersAreSafe();
        DirectoryConfined(e, f, Cleaners, p, dryRun);
        if d.result.Ok? {
          var rest := WalkEffect(d.entries, f, items[1..], dryRun);
          WalkConfined(d.entries, f, items[1..], dryRun);
          ConfinedThen(e, d.entries, d.lines, rest.entries, rest.lines);
          RemovalsBelowFoundConcat(d.lines, rest.lines);
          assert s.lines == d.lines + rest.lines;
          forall l | l in s.lines && l.Found?
            ensures Visit(l.dir) in items && IsDir(e, l.dir)
          {
            if l in rest.lines {
              assert l.dir in d.entries;
            }
          }
        }
      }
    }
  }

  /** A whole run: deletions stay inside announced removals, which lie
      strictly below reported matches; with the check flag no removal is
      announced. */
  lemma {:induction false} RunConfined(e: Entries, f: Faults, walker: Walker, roots: seq<Path>, check: bool)
    ensures var s := RunEffect(e, f, walker, roots, check);
            && Confined(e, s.entries, s.lines)
            && RemovalsBelowFound(s.lines)
            && (check ==> forall l :: l in s.lines ==> l.Found?)
    decreases |roots|
  {
    if roots != [] {
      var w := WalkEffect(e, f, walker(e, roots[0]), check);
      WalkConfined(e, f, walker(e, roots[0]), check);
      if w.result.Ok? {
        var rest := RunEffect(w.entries, f, walker, roots[1..], check);
        RunConfined(w.entries, f, walker, roots[1..], check);
        ConfinedThen(e, w.entries, w.lines, rest.entries, rest.lines);
        RemovalsBelowFoundConcat(w.lines, rest.lines);
      }
    }
  }

  /** Every match a run reports is a directory of the tree before the run. */
  lemma {:induction false} RunReportsDirectories(e: Entries, f: Faults, walker: Walker, roots: seq<Path>, check: bool)
    ensures var s := RunEffect(e, f, walker, roots, check);
            forall l :: l in s.lines && l.Found? ==> IsDir(e, l.dir)
    decreases |roots|
  {
    if roots != [] {
      var s := RunEffect(e, f, walker, roots, check);
      var w := WalkEffect(e, f, walker(e, roots[0]), check);
      WalkConfined(e, f, walker(e, roots[0]), check);
      if w.result.Ok? {
        var rest := RunEffect(w.entries, f, walker, roots[1..], check);
        RunReportsDirectories(w.entries, f, walker, roots[1..], check);
        assert s.lines == w.lines + rest.lines;
        forall l | l in rest.lines && l.Found?
          ensures IsDir(e, l.dir)
        {
          assert l.dir in w.entries;
        }
      }
    }
  }

  /** For a walk that stays under its root, every match a run reports lies
      under one of the roots. */
  lemma {:induction false} RunReportsUnderRoots(e: Entries, f: Faults, walker: Walker, roots: seq<Path>, check: bool)
    requires WalkerStaysUnder(walker)
    ensures var s := RunEffect(e, f, walker, roots, check);
            forall l :: l in s.lines && l.Found? ==> exists r :: r in roots && r <= l.dir
    decreases |roots|
  {
    if roots != [] {
      var s := RunEffect(e, f, walker, roots, check);
      var items := walker(e, roots[0]);
      var w := WalkEffect(e, f, items, check);
      WalkConfined(e, f, items, check);
      if w.result.Ok? {
        var rest := RunEffect(w.entries, f, walker, roots[1..], check);
        RunReportsUnderRoots(w.entries, f, walker, roots[1..], check);
        assert s.lines == w.lines + rest.lines;
        forall l | l in s.lines && l.Found?
          ensures exists r :: r in roots && r <= l.dir
        {
          if l in rest.lines {
            var r :| r in roots[1..] && r <= l.dir;
            assert r in roots;
          } else {
            assert Visit(l.dir) in items;
            assert roots[0] <= l.dir;
            assert roots[0] in roots;
          }
        }
      } else {
        forall l | l in s.lines && l.Found?
          ensures exists r :: r in roots && r <= l.dir
        {
          assert Visit(l.dir) in items;
          assert roots[0] <= l.dir;
          assert roots[0] in roots;
        }
      }
    }
  }

  lemma {:induction false} PrefixChain(a: Path, b: Path, c: Path, d: Path)
    requires a <= b && b < c && c <= d
    ensures a < d
  {
  }

  /** Safety of a whole run, for paths as written: nothing is created or
      changed, and every entry that disappears lay strictly below one of the
      roots. The tree has no links to directories, so this says nothing about
      deletions reached through such a link. */
  lemma {:induction false} RunStaysInsideRoots(e: Entries, f: Faults, walker: Walker, roots: seq<Path>, check: bool)
    requires WalkerStaysUnder(walker)
    ensures var s := RunEffect(e, f, walker, roots, check);
            && Shrinks(e, s.entries)
            && forall p :: p in e && p !in s.entries ==> exists r :: r in roots && r < p
  {
    var s := RunEffect(e, f, walker, roots, check);
    RunConfined(e, f, walker, roots, check);
    RunReportsUnderRoots(e, f, walker, roots, check);
    forall p | p in e && p !in s.entries
      ensures exists r :: r in roots && r < p
    {
      var l :| l in s.lines && l.Removing? && l.path <= p;
      var m :| m in s.lines && m.Found? && m.dir < l.path;
      var r :| r in roots && r <= m.dir;
      PrefixChain(r, m.dir, l.path, p);
    }
  }

  /** With the check flag a run over any roots leaves the tree unchanged. */
  lemma {:induction false} CheckRunLeavesTreeUnchanged(e: Entries, f: Faults, walker: Walker, roots: seq<Path>)
    ensures RunEffect(e, f, walker, roots, true).entries == e
  {
    var s := RunEffect(e, f, walker, roots, true);
    RunConfined(e, f, walker, roots, true);
    ConfinedWithoutRemovals(e, s.entries, s.lines);
  }

  /** Roots are processed one after another: a run over `first + later` is
      the run over `first`, followed, only if that succeeded, by the run over
      `later` on the tree it left. */
  lemma {:induction false} RunInOrder(e: Entries, f: Faults, walker: Walker, first: seq<Path>, later: seq<Path>, check: bool)
    ensures var s1 := RunEffect(e, f, walker, first, check);
            RunEffect(e, f, walker, first + later, check)
            == if s1.result.Err? then s1 else After(s1.lines, RunEffect(s1.entries, f, walker, later, check))
    decreases |first|
  {
    if first == [] {
      assert first + later == later;
    } else {
      assert (first + later)[0] == first[0];
      assert (first + later)[1..] == first[1..] + later;
      var w := WalkEffect(e, f, walker(e, first[0]), check);
      if w.result.Ok? {
        RunInOrder(w.entries, f, walker, first[1..], later, check);
      }
    }
  }

  /** Rules are tried one after another: trying `first + later` on a
      directory is trying `first`, followed, only if that succeeded, by
      `later` on the tree it left. */
  lemma {:induction false} DirectoryInOrder(e: Entries, f: Faults, first: seq<Rule>, later: seq<Rule>, dir: Path, dryRun: bool)
    ensures var s1 := DirectoryEffect(e, f, first, dir, dryRun);
            DirectoryEffect(e, f, first + later, dir, dryRun)
            == if s1.result.Err? then s1 else After(s1.lines, DirectoryEffect(s1.entries, f, later, dir, dryRun))
    decreases |first|
  {
    if first == [] {
      assert first + later == later;
    } else {
      assert (first + later)[0] == first[0];
      assert (first + later)[1..] == first[1..] + later;
      var t := TryCleaningEffect(e, f, first[0], dir, dryRun);
      if t.result.Ok? {
        DirectoryInOrder(t.entries, f, first[1..], later, dir, dryRun);
        var s1 := DirectoryEffect(t.entries, f, first[1..], dir, dryRun);
        if s1.result.Ok? {
          assert t.lines + (s1.lines + DirectoryEffect(s1.entries, f, later, dir, dryRun).lines)
                 == (t.lines + s1.lines) + DirectoryEffect(s1.entries, f, later, dir, dryRun).lines;
        }
      }
    }
  }

  /** Walk items are handled one after another: an error item ends the walk
      with a walk error, and nothing after it is looked at. */
  lemma {:induction false} WalkInOrder(e: Entries, f: Faults, first: seq<WalkItem>, later: seq<WalkItem>, dryRun: bool)
    ensures var s1 := WalkEffect(e, f, first, dryRun);
            WalkEffect(e, f, first + later, dryRun)
            == if s1.result.Err? then s1 else After(s1.lines, WalkEffect(s1.entries, f, later, dryRun))
    ensures later != [] && later[0].Failed? && WalkEffect(e, f, first, dryRun).result.Ok? ==>
              WalkEffect(e, f, first + later, dryRun).result == Err(Walkdir)
    decreases |first|
  {
    if first == [] {
      assert first + later == later;
    } else {
      assert (first + later)[0] == first[0];
      assert (first + later)[1..] == first[1..] + later;
      if first[0].Visit? {
        var p := first[0].path;
        if !IsDir(e, p) {
          WalkInOrder(e, f, first[1..], later, dryRun);
        } else {
          var d := DirectoryEffect(e, f, Cleaners, p, dryRun);
          if d.result.Ok? {
            WalkInOrder(d.entries, f, first[1..], later, dryRun);
          }
        }
      }
    }
  }

  /** `filter_entry` prunes the walk below an entry that is not a
      directory. Skipping each such item one at a time loses nothing: on a
      tree, nothing lies below a path that is not a directory, so every item
      the pruning would have dropped is skipped as well. */
  lemma {:induction false} PrunedItemsAreSkipped(e: Entries, f: Faults, p: Path, items: seq<WalkItem>, dryRun: bool)
    requires WellFormed(e)
    requires !IsDir(e, p)
    requires forall item :: item in items ==> item.Visit? && p < item.path
    ensures WalkEffect(e, f, items, dryRun) == Step(e, Ok(()), [])
    decreases |items|
  {
    if items != [] {
      assert items[0] in items;
      AncestorIsDirectory(e, p, items[0].path);
      PrunedItemsAreSkipped(e, f, p, items[1..], dryRun);
    }
  }

  // ----- a second pass finds nothing -----

  /** When no rule fires on `dir`, trying them all does nothing. */
  lemma {:induction false} DirectoryWithoutMatchIsNoOp(e: Entries, f: Faults, rules: seq<Rule>, dir: Path, dryRun: bool)
    requires forall k :: 0 <= k < |rules| ==> !Matches(rules[k], e, dir)
    ensures DirectoryEffect(e, f, rules, dir, dryRun) == Step(e, Ok(()), [])
    decreases |rules|
  {
    if rules != [] {
      assert forall k :: 0 <= k < |rules[1..]| ==> rules[1..][k] == rules[k + 1];
      DirectoryWithoutMatchIsNoOp(e, f, rules[1..], dir, dryRun);
    }
  }

  /** After a successful real pass over `dir`, no rule with something to
      remove fires on it any more. */
  lemma {:induction false} DirectoryLeavesNoMatch(e: Entries, f: Faults, rules: seq<Rule>, dir: Path)
    requires forall k :: 0 <= k < |rules| ==> rules[k].toRemove != []
    requires DirectoryEffect(e, f, rules, dir, false).result.Ok?
    ensures forall k :: 0 <= k < |rules| ==> !Matches(rules[k], DirectoryEffect(e, f, rules, dir, false).entries, dir)
    decreases |rules|
  {
    if rules != [] {
      var s := DirectoryEffect(e, f, rules, dir, false);
      var t := TryCleaningEffect(e, f, rules[0], dir, false);
      assert forall k :: 0 <= k < |rules[1..]| ==> rules[1..][k] == rules[k + 1];
      DirectoryLeavesNoMatch(t.entries, f, rules[1..], dir);
      DirectoryConfined(t.entries, f, rules[1..], dir, false);
      if Matches(rules[0], e, dir) {
        TryCleaningIdempotent(e, f, rules[0], dir);
      } else {
        TryCleaningCases(e, f, rules[0], dir, false);
      }
      if Matches(rules[0], s.entries, dir) {
        MatchSurvivesOnlyFromBefore(rules[0], t.entries, s.entries, dir);
      }
    }
  }

  /** After a successful real pass over a walk, no directory it yielded is
      still matched by any rule of the table. */
  lemma {:induction false} WalkLeavesNoMatch(e: Entries, f: Faults, items: seq<WalkItem>)
    requires WalkEffect(e, f, items, false).result.Ok?
    ensures var s := WalkEffect(e, f, items, false);
            forall p :: Visit(p) in items && IsDir(s.entries, p) ==>
              forall k :: 0 <= k < |Cleaners| ==> !Matches(Cleaners[k], s.entries, p)
    decreases |items|
  {
    if items != [] {
      var s := WalkEffect(e, f, items, false);
      var p := items[0].path;
      var next := e;
      if IsDir(e, p) {
        var d := DirectoryEffect(e, f, Cleaners, p, false);
        next := d.entries;
        CleanersAreSafe();
        DirectoryLeavesNoMatch(e, f, Cleaners, p);
        DirectoryConfined(e, f, Cleaners, p, false);
        WalkConfined(next, f, items[1..], false);
        forall k | 0 <= k < |Cleaners| && Matches(Cleaners[k], s.entries, p)
          ensures false
        {
          MatchSurvivesOnlyFromBefore(Cleaners[k], next, s.entries, p);
        }
      } else {
        WalkConfined(e, f, items[1..], false);
        assert !IsDir(s.entries, p);
      }
      WalkLeavesNoMatch(next, f, items[1..]);
    }
  }

  /** A walk over directories none of which any rule matches does nothing. */
  lemma {:induction false} WalkWithoutMatchIsNoOp(e: Entries, f: Faults, items: seq<WalkItem>, dryRun: bool)
    requires forall item :: item in items ==> item.Visit?
    requires forall p :: Visit(p) in items && IsDir(e, p) ==>
               forall k :: 0 <= k < |Cleaners| ==> !Matches(Cleaners[k], e, p)
    ensures WalkEffect(e, f, items, dryRun) == Step(e, Ok(()), [])
    decreases |items|
  {
    if items != [] {
      assert items[0] in items;
      if IsDir(e, items[0].path) {
        DirectoryWithoutMatchIsNoOp(e, f, Cleaners, items[0].path, dryRun);
      }
      WalkWithoutMatchIsNoOp(e, f, items[1..], dryRun);
    }
  }

  /** Idempotence: after a successful real pass, walking again over
      directories the first pass yielded finds no project and removes
      nothing, whatever the flag. */
  lemma {:induction false} SecondPassIsNoOp(e: Entries, f: Faults, items: seq<WalkItem>, again: seq<WalkItem>, dryRun: bool)
    requires WalkEffect(e, f, items, false).result.Ok?
    requires forall item :: item in again ==> item.Visit? && item in items
    ensures var s := WalkEffect(e, f, items, false);
            WalkEffect(s.entries, f, again, dryRun) == Step(s.entries, Ok(()), [])
  {
    WalkLeavesNoMatch(e, f, items);
    WalkWithoutMatchIsNoOp(WalkEffect(e, f, items, false).entries, f, again, dryRun);
  }

  // ----- a sample Cargo project: a manifest, sources and a 10 MB build artefact -----

  const Project: Path := ["home", "p"]
  const Manifest: Path := ["home", "p", "Cargo.toml"]
  const Sources: Path := ["home", "p", "src"]
  const Build: Path := ["home", "p", "target"]
  const Artefact: Path := ["home", "p", "target", "app"]

  /** A Cargo project holding a manifest, a source directory and a build
      directory with one 10 MB artefact. */
  function CargoTree(): Entries {
    map[[] := Dir, ["home"] := Dir, Project := Dir, Manifest := File(1), Sources := Dir,
        Build := Dir, Artefact := File(10_000_000)]
  }

  /** The same project without its source directory. */
  function CargoTreeWithoutSources(): Entries {
    map p | p in CargoTree() && p != Sources :: CargoTree()[p]
  }

  /** The Cargo rule fires on the project, reports the project's whole size
      (manifest plus artefact) before removing anything, then removes
      `target` with everything in it and keeps the manifest and the
      sources. */
  lemma CargoProjectIsCleaned()
    ensures var s := TryCleaningEffect(CargoTree(), Faults({}, {}), CargoProject, Project, false);
            && s.result == Ok(())
            && s.lines == [Found("Cargo", Project, 10_000_001), Removing(Build)]
            && s.entries == map[[] := Dir, ["home"] := Dir, Project := Dir, Manifest := File(1), Sources := Dir]
  {
    CargoTreeMatches();
    CargoTreeSize();
    CargoTreeRemoval();
  }

  lemma CargoTreeMatches()
    ensures Matches(CargoProject, CargoTree(), Project)
  {
    assert Join(Project, CargoProject.indicators[0]) == Manifest;
    assert Join(Project, CargoProject.indicators[1]) == Sources;
    assert Join(Project, CargoProject.toRemove[0]) == Build;
  }

  lemma CargoTreeSize()
    ensures DirectorySize(CargoTree(), Faults({}, {}), Project) == Ok(10_000_001)
  {
    var e := CargoTree();
    var sub := Subtree(e, Project);
    CargoSubtree();
    SizeSumRemove(e, sub, Artefact);
    SizeSumRemove(e, sub - {Artefact}, Manifest);
    assert sub - {Artefact} - {Manifest} == {Project, Sources, Build};
    SizeSumOfZeroes(e, {Project, Sources, Build});
  }

  lemma CargoSubtree()
    ensures Subtree(CargoTree(), Project) == {Project, Manifest, Sources, Build, Artefact}
    ensures SizeAt(CargoTree(), Artefact) == 10_000_000 && SizeAt(CargoTree(), Manifest) == 1
    ensures IsDir(CargoTree(), Project) && IsDir(CargoTree(), Sources) && IsDir(CargoTree(), Build)
  {
  }

  lemma CargoNamesDiffer()
    ensures Manifest != Sources && Manifest != Build && Sources != Build
  {
  }

  lemma CargoTreeRemoval()
    ensures Join(Project, CargoProject.toRemove[0]) == Build
    ensures CanRemove(CargoTree(), Faults({}, {}), Build)
    ensures RemoveTree(CargoTree(), Build)
            == map[[] := Dir, ["home"] := Dir, Project := Dir, Manifest := File(1), Sources := Dir]
  {
    CargoNamesDiffer();
    assert !(Build <= Manifest) by { assert Build[2] != Manifest[2]; }
    assert !(Build <= Sources) by { assert Build[2] != Sources[2]; }
  }

  /** Without its source directory the project is not recognised: nothing is
      reported and nothing removed. */
  lemma CargoProjectWithoutSourcesIsKept(dryRun: bool)
    ensures TryCleaningEffect(CargoTreeWithoutSources(), Faults({}, {}), CargoProject, Project, dryRun)
            == Step(CargoTreeWithoutSources(), Ok(()), [])
  {
    assert !PathExists(CargoTreeWithoutSources(), Project, CargoProject.indicators[1]);
  }
}
