# gari's cleaning engine in Dafny

`gari` walks the directories under a list of roots. It recognises project
directories of three kinds: Cargo, CMake and Zig. For each project it prints
the project's disk usage and then deletes the project's build output, unless
`--check` asks for a dry run. This project models that engine and proves its
safety and idempotence promises. It models:

- the detection and cleaning logic of `src/cleanable.rs`;
- the rule table and the driver loops of `src/main.rs`.

The filesystem is a finite map from paths to nodes:

- A path is a sequence of name components.
- A node is `File(size)`, `Symlink(size)` or `Dir`.
- `path.join(rel)` is concatenation, and "q lies under p" is `p <= q`.
- `remove_dir_all(t)` deletes every key that has `t` as a prefix.

The live filesystem is the class `Fs.FileTree`. Its `entries` field is what
the engine's methods change. A `Faults` value says where the operating system
refuses service:

- Reading an `unreadable` entry fails with a walk error.
- Removing a subtree that holds an `undeletable` entry fails with a filesystem
  error.

The printed report is modelled as a sequence of `Line` records:

- `Found(context, dir, size)` stands for "… project found in …".
- `Removing(path)` stands for "Attempting to remove …".

Each method is proved equal to a specification function of the state before
the call. The spec function returns the new entries, the result and the lines
printed. These are the spec functions:

- `DirectorySize` for `get_directory_size`;
- `CleanEffect` for `clean`;
- `TryCleaningEffect` for `try_cleaning`;
- `DirectoryEffect` for the rules loop;
- `WalkEffect` for the driver `clean`;
- `RunEffect` for `main`.

The lemmas state what the source promises about those functions.

The walk (`WalkDir::new(root)`) is a parameter of type `Walker`. It maps the
tree to the sequence of items the walk yields: a path, or an error.

The directory filter (`filter_entry`, which tests `path().is_dir()`) is
applied against the tree as it stands when each item is reached. A
`target/` directory yielded after its project was cleaned is therefore
skipped, as on the real lazy walk. Each root gets a fresh walk of the tree as
the earlier roots left it.

Three consequences of the code are worth stating, because a reader might
expect otherwise:

- **Size errors abort.** An unreadable entry anywhere under a matched
  directory makes `get_directory_size` fail, and the whole run stops. It is not
  counted as size 0. The `?` on src/cleanable.rs:16-17 and src/cleanable.rs:54
  propagates the error.
- **Removal needs a directory or a link.** `remove_dir_all` fails on a regular
  file, so a rule path that names a plain file (`build` or `zig-out` as a file)
  makes the run fail with a filesystem error.
- **A missing root is fatal.** A walk over a missing root yields one error
  item. The driver propagates it (src/main.rs:70, 83). In the model, that is a
  walker that yields `Failed`.

## Model

| member | source | states |
|---|---|---|
| Fs.FileTree.RemoveDirAll | src/cleanable.rs:75 | succeeds exactly when the target exists, is not a regular file and has no undeletable entry in its subtree; on success exactly the subtree under the target is gone; on failure the error is a filesystem error and the tree is unchanged; the tree stays well formed |
| Fs.RemoveTreeKeepsWellFormed | src/cleanable.rs:75 | deleting a whole subtree leaves a tree: every remaining path's ancestors are still directories |
| Fs.AncestorIsDirectory | src/main.rs:66-68 | on a tree every proper prefix of a present path is a directory, so nothing lies below a path that is not a directory |
| Cleanable.AllExist | src/cleanable.rs:45 | the `all` over existence checks is true iff every path of the list exists under the directory |
| Cleanable.ContainsIndicators | src/cleanable.rs:42-48 | never returns an error; true iff every indicator and every path to remove exists under the directory, a trailing-slash path only as a directory |
| Cleanable.AllExistChain | src/cleanable.rs:43-45 | `all` over the chain of indicators and paths to remove is the conjunction of `all` over each part |
| Cleanable.EmptyRuleMatchesEverywhere | src/cleanable.rs:43-45 | a rule with no indicators and nothing to remove matches every directory |
| Cleanable.MissingRequiredPathDefeatsMatch | src/cleanable.rs:43-45 | matching is conjunctive: without any one indicator or path to remove the rule does not fire |
| Cleanable.MatchDependsOnlyOnSubtree | src/cleanable.rs:45 | whether a rule fires on a directory depends only on that directory's subtree, not on siblings |
| Cleanable.MatchSurvivesOnlyFromBefore | src/cleanable.rs:45 | deleting entries can stop a rule from firing but never make it fire |
| Cleanable.GetDirectorySize | src/cleanable.rs:11-25 | the loop returns `DirectorySize`: 0 for a path that is not a directory; otherwise a walk error iff some entry of the subtree is unreadable, and else the sum of the sizes of the subtree's entries |
| Cleanable.OnlyFilesAndLinksCount | src/cleanable.rs:18-19 | directories contribute nothing: the subtree's size is that of its files and symbolic links alone |
| Cleanable.PartsBoundDirectorySize | src/cleanable.rs:15-21 | any set of entries under a directory weighs at most the directory's size |
| Cleanable.Clean | src/cleanable.rs:71-79 | announces then removes each path to remove in order, stopping at the first failed removal; the result, tree and lines are those of `CleanEffect` on the tree before the call |
| Cleanable.RemoveTreesExactly | src/cleanable.rs:72-75 | after removing a list of subtrees exactly the entries under one of them are gone and every other entry is unchanged |
| Cleanable.CleanOutcome | src/cleanable.rs:71-79 | the i-th line announces the i-th path; on success all paths were removed in order; on failure the error is a filesystem error, the earlier removals stay done and the last announced path is the one that could not be removed |
| Cleanable.CleanLines | src/cleanable.rs:72-75 | `clean` prints at most one line per path to remove, the i-th announcing the i-th path; all of them on success, at least one on failure, and a failure is a filesystem error |
| Cleanable.CleanEntries | src/cleanable.rs:72-75 | on success the subtrees of all paths to remove are gone; on failure those announced before the last are gone and the last could not be removed from what was left |
| Cleanable.CleanDeletesOnlyTargets | src/cleanable.rs:72-75 | `clean` prints only removal lines, each for a path to remove under the directory, and deletes only entries under an announced path |
| Cleanable.CleanLinesAreTargets | src/cleanable.rs:72-74 | every line `clean` prints announces one of the paths to remove joined to the directory |
| Cleanable.CleanConfined | src/cleanable.rs:72-75 | `clean` deletes entries only, each under a path it announced |
| Cleanable.CleanSparesUncovered | src/cleanable.rs:72-75 | an entry under the directory that no path to remove covers survives `clean` unchanged |
| Cleanable.TryCleaning | src/cleanable.rs:52-68 | on a match computes the size, reports it, and unless a dry run removes the paths; the result, tree and lines are those of `TryCleaningEffect` on the tree before the call |
| Cleanable.TryCleaningCases | src/cleanable.rs:52-68 | no match: Ok, tree unchanged, nothing printed; dry run: tree unchanged and only the match report printed; on a match the reported size is that of the tree before any removal, printed first |
| Cleanable.TryCleaningRemoves | src/cleanable.rs:53-64 | removal happens only on a match whose size was computed and without dry run, and is then exactly `clean` after the report; otherwise the tree is unchanged |
| Cleanable.FoundThenRemovals | src/cleanable.rs:55-63 | a match report followed by `clean` deletes only under announced paths, reports only this directory, and announces removals strictly below it when the rule's paths are non-empty |
| Cleanable.RemovalsBelowReport | src/cleanable.rs:55-75 | when the rule's paths are non-empty, every removal `clean` announces lies strictly below the directory reported just before |
| Cleanable.TryCleaningConfined | src/cleanable.rs:52-68 | `try_cleaning` deletes only under announced removal paths, reports only its own directory, announces no removal in a dry run, and announces removals strictly below the reported directory |
| Cleanable.TryCleaningIdempotent | src/cleanable.rs:45 | after a successful real cleaning of a match with something to remove, the rule no longer matches and a second call does nothing |
| Cleanable.TryCleaningKeepsIndicators | src/cleanable.rs:71-79 | cleaning with a rule whose paths cover no indicator of another rule keeps every existing indicator of that other rule |
| Gari.CleanersAreSafe | src/main.rs:12-58 | the table holds three rules, each removes something and only strictly below the project, and no rule removes an indicator of any rule of the table |
| Gari.CleanDirectory | src/main.rs:72-74 | every rule of the table is tried on the directory in table order, stopping at the first error; the result, tree and lines are those of `DirectoryEffect` |
| Gari.CleanRoot | src/main.rs:60-77 | the walk's error items abort with a walk error, items that are not directories when reached are skipped, and every rule is tried on each directory; the outcome is that of `WalkEffect` |
| Gari.Run | src/main.rs:79-87 | the roots are cleaned in the order given with the check flag as dry run, stopping at the first error; the outcome is that of `RunEffect` |
| Gari.DirectoryConfined | src/main.rs:72-74 | trying rules on one directory deletes only under announced removals, reports only that directory, announces nothing in a dry run, and removals lie strictly below the reported match |
| Gari.WalkConfined | src/main.rs:60-77 | one root's walk deletes only under announced removals, each strictly below a reported match, and each reported match is a yielded path that was a directory |
| Gari.PrunedItemsAreSkipped | src/main.rs:62-68 | on a tree, the walk items below a path that is not a directory are all skipped, which is what pruning by `filter_entry` gives |
| Gari.RunConfined | src/main.rs:79-87 | a whole run deletes entries only, each under an announced removal strictly below a reported match; with the check flag no removal is announced |
| Gari.RunReportsDirectories | src/main.rs:62-74 | every match a run reports is a directory of the tree before the run, so plain files are never handed to the rules |
| Gari.RunReportsUnderRoots | src/main.rs:66-84 | for a walk that stays under its root, every match a run reports lies under one of the roots |
| Gari.RunStaysInsideRoots | src/main.rs:79-87 | for paths as written, a run creates and changes nothing, and every entry that disappears lay strictly below one of the roots |
| Gari.CheckRunLeavesTreeUnchanged | src/main.rs:83 | with the check flag a run over any roots leaves the tree exactly as it was |
| Gari.RunInOrder | src/main.rs:82-84 | running over two lists of roots is the run over the first followed, only if it succeeded, by the run over the second on the tree it left |
| Gari.DirectoryInOrder | src/main.rs:72-74 | trying two lists of rules is trying the first followed, only if it succeeded, by the second on the tree it left |
| Gari.WalkInOrder | src/main.rs:66-75 | walk items are handled in order, and an error item after a successful prefix ends the walk with a walk error |
| Gari.DirectoryWithoutMatchIsNoOp | src/main.rs:72-74 | when no rule matches a directory, trying them all does nothing and prints nothing |
| Gari.DirectoryLeavesNoMatch | src/main.rs:72-74 | after a successful real pass over a directory, no rule with something to remove matches it any more |
| Gari.WalkLeavesNoMatch | src/main.rs:66-75 | after a successful real walk, no rule of the table matches any yielded path that is still a directory |
| Gari.WalkWithoutMatchIsNoOp | src/main.rs:66-75 | a walk over directories none of which any rule matches does nothing and prints nothing |
| Gari.SecondPassIsNoOp | src/main.rs:66-75 | after a successful real pass, walking again over directories the first pass yielded removes nothing and prints nothing, dry run or not |
| Gari.CargoTreeMatches | src/main.rs:18-30 | a directory with `Cargo.toml`, `src/` and `target/` matches the Cargo rule |
| Gari.CargoTreeSize | src/cleanable.rs:11-25 | that project with a 1-byte manifest and a 10 MB artefact weighs 10 000 001 bytes |
| Gari.CargoSubtree | src/cleanable.rs:15 | the walk under that project yields the project, the manifest, `src`, `target` and the artefact, with the stated sizes |
| Gari.CargoTreeRemoval | src/cleanable.rs:71-79 | removing `target` from that project succeeds and leaves the manifest and the sources |
| Gari.CargoProjectIsCleaned | src/cleanable.rs:52-68 | on that project the Cargo rule reports 10 000 001 bytes, announces `target`, and leaves the project with its manifest and sources |
| Gari.CargoProjectWithoutSourcesIsKept | src/main.rs:23-25 | without `src/` the Cargo rule does not fire: nothing reported, nothing removed |

## Left out

- Report formatting is not modelled. `println!` text and the `byte_unit` human-readable scaling (src/cleanable.rs:55-60, 74) are output formatting and floating point. A report is the `Line` record only.
- `src/cli.rs` (clap parsing) is not part of this model. Its result enters as the list of roots and the `check` flag of `Gari.Run`.
- `src/utils.rs` is not part of this model. It changes the process-wide working directory, and no other module declares it.
- The `Cwd` error variant is declared in `src/lib.rs` and constructed nowhere in the crate. `Fs.Error` keeps it, and the model never produces it.
- The walk's order and contents are not modelled. `WalkDir` internals, sibling order, and what a directory read open at the time of a deletion still lists are a parameter (`Walker`). Lemmas that need the walk to stay under its root say so with `WalkerStaysUnder`.
- Operating-system causes of failure are not modelled. Permissions, races and I/O errors are reduced to the fixed `Faults` sets.
- Fs.FileTree.RemoveDirAll: a failed removal is modelled as removing nothing. The real primitive may have deleted part of the subtree before it failed.
- Cleanable.ContainsIndicators: symbolic-link targets are not modelled. A link counts as existing even when broken, and a trailing-slash path is never satisfied through a link to a directory. Rust's `exists()` follows links.
- Gari.CleanRoot: a symbolic link to a directory is never treated as a directory, so rules are never tried on it. The source's `is_dir()` follows links and would try them.
- Gari.RunStaysInsideRoots: the confinement holds for paths as written. Through a link to a directory, the program tries the rules on the link's target and can delete there, outside every root (src/main.rs:63, src/cleanable.rs:73-75). The model has no links to directories, so it does not capture this.
- Cleanable.GetDirectorySize: the `u64` accumulator is modelled as an unbounded `nat`. A sum beyond 2^64 - 1 would overflow in the source: a panic in debug builds, wrap-around in release builds.
- Cleanable.GetDirectorySize: the entries of the subtree are summed in no particular order. Only the first unreadable entry the walk meets matters, and the model reports the error whichever it meets.
