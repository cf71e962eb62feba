# A verified model of the lusid planning core

lusid (earlier avo, then ludis) is a declarative machine-configuration tool.
A plan, written in the Rimu configuration language, names modules with
parameters and ordering constraints. `@core/` modules are resources such as
apt packages. User modules expand recursively into further plan items.

The tool:
- turns a plan into a tree of resources;
- asks each resource for its current state and derives a change;
- turns the changes into operations;
- schedules the operations into epochs that respect the tree's
  `before`/`after` constraints;
- merges same-kind operations inside each epoch into one batch;
- applies the epochs in order while a terminal view follows the progress.

This project models that core, and the small helpers around it, as pure
Dafny functions and methods over immutable datatypes, and proves what the
core promises.

| module | models |
|---|---|
| `Wrappers`, `Strs` | `Option`/`Result`, plus string helpers: lexicographic order and sorted, de-duplicated lists |
| `Kahn` | layering a dependency graph into epochs with Kahn's algorithm: a reference definition and the queue/in-degree loop, proved equal |
| `Causal` | the generic before/after tree shared by every epoch scheduler: leaf collection with inherited constraints, id resolution (a branch id stands for its leaves), edge building and the error taxonomy |
| `OperationEpoch`, `ResourcePipeline`, `StackOperation` | the three versions of epoch scheduling: `tree_to_epochs`, `compute_epochs` and `OperationEventList::into_epochs`. Also the resource → state → change → operation pipeline, `group_by_kind`, `PackageOperation::group` and `apply_all` |
| `Epochs` | `Epochs::map` and the stop-at-first-error `try_each` |
| `AptResource`, `PackageOps`, `AptOps`, `AptOperations` | the apt resource, package atoms and deltas, and the per-epoch apt merge (set union, sorted and de-duplicated) with its display |
| `ArenaTree` | the flat, preorder, id-indexed tree: its construction, `map*`, `map_tree*`, `add_children`, `to_tree_elements` and `compact` |
| `Rimu`, `RimuInterop` | a small Rimu value datatype with spans, and span-preserving conversion |
| `Params`, `AvoParams` | parameter schemas decoded from Rimu, and value validation with its error taxonomy, in both versions |
| `PlanDecode` | decoding of `Name`, `Version` and a module invocation (`PlanAction` in plan/src/plan.rs, `BlockCallRef` in stack/src/block.rs), and of a plan/block definition, in the source's error order |
| `PlanEval`, `PlanCore`, `PlanExpand`, `PlanScope`, `PlanIds` | plan evaluation, core-module routing, recursive expansion into an operation tree, scoping of sub-item ids, and plan ids |
| `LudisConfig`, `Paths` | resolution of a plan path against the config file, the machines config, and the path algebra these use |
| `RemoteSync`, `SystemdEscape` | remote path joining and mkdir prefixes for SFTP, systemd unit-name path escaping, and the choice of a fresh vsock CID |
| `Os`, `Command` | Ubuntu version validation and OS display strings; command display, `sudo` rewriting and outcome classification |
| `ApplyView`, `TuiState` | the progress-view state: the flat view tree and its updates, the selection, scroll, collapse and stage-navigation state machines, and the bounded circular buffer |

Effects become parameters of the model:
- Rimu parsing and evaluation, and the call of a plan's setup function;
- store reads and state probes;
- command exit status;
- the fresh random ids: scope ids, VM ids and CIDs.

## Model

| member | source | states |
|---|---|---|
| Strs.SortDedup | operation/src/ops/package.rs:116-117 | the sorted, de-duplicated list holds exactly the elements of its input, strictly increasing |
| Strs.SortDedupCanonical | operation/src/ops/package.rs:112-117 | the batch depends only on the set of packages named, not their order or repeats |
| Strs.SortDedupIdempotent | operation/src/ops/package.rs:116-117 | sorting and de-duplicating an already processed list changes nothing |
| Strs.SortedUnique | operation/src/ops/apt.rs:23-40 | an ordered set (as a `BTreeSet` yields it) is determined by its elements |
| Strs.SplitJoin | system/src/os.rs:54 | joining the pieces that `split` cuts at a separator gives back the string |
| Strs.JoinSplit | system/src/os.rs:54 | cutting at the separator a string joined from separator-free pieces gives back the pieces |
| Kahn.BuildOutgoing | operation/src/epoch.rs:182-206 | the adjacency table filled edge by edge lists, per node, the targets of its edges in edge order |
| Kahn.BuildInDegrees | operation/src/epoch.rs:183-206 | the in-degree table counts, per node, the edges that end there |
| Kahn.ZeroInDegree | operation/src/epoch.rs:208-212 | the first queue is the nodes of in-degree zero, each once, in index order |
| Kahn.DecrementTargets | operation/src/epoch.rs:234-239 | after one node's targets are decremented, the table counts the edges left, and the queue gains exactly the nodes whose count reached zero |
| Kahn.DrainWave | operation/src/epoch.rs:232-241 | after a wave, in-degrees count edges from unprocessed nodes only, and the next queue is exactly the nodes freed by this wave, without repeats |
| Kahn.NextWave | operation/src/epoch.rs:232-241 | what one wave frees is the next layer of the reference layering |
| Kahn.Layer | operation/src/epoch.rs:208-249 | the wave loop yields the reference layering, each wave without repeats, and fails exactly when some node is never scheduled, reporting n minus the scheduled count |
| Kahn.ScheduleDisjoint | operation/src/epoch.rs:218-230 | waves are non-empty and no node is scheduled in two waves |
| Kahn.ScheduleDepth | operation/src/epoch.rs:218-241 | `Schedule`, the reference layering `Layer` is proved equal to: a node's wave is its longest-path depth: 0 exactly without predecessors, else one more than the latest predecessor |
| Kahn.EdgesForward | operation/src/epoch.rs:208-249 | every edge into a scheduled node comes from a node of a strictly earlier wave |
| Kahn.ScheduleStuck | operation/src/epoch.rs:244-247 | when the layering stops short, every unscheduled node has an unscheduled predecessor |
| Kahn.StuckHasCycle | operation/src/epoch.rs:244-247 | a graph the layering cannot finish contains a cycle |
| Kahn.ScheduledAcyclic | operation/src/epoch.rs:244-249 | a fully scheduled graph has no cycle, so the cycle error is reported exactly for cyclic graphs |
| Epochs.Map | operation/src/epoch.rs:26-33 | mapping keeps the number and order of epochs and maps each one |
| Epochs.MapCompose | operation/src/epoch.rs:26-33 | mapping twice equals mapping once with the composed function |
| Epochs.MapIdentity | operation/src/epoch.rs:26-33 | mapping with the identity leaves the epochs unchanged |
| Epochs.TryEach | operation/src/epoch.rs:45-54 | epochs are handled in order; success iff every epoch succeeds; on error, exactly the epochs up to the failing one were handled |
| Epochs.TryEachAppend | operation/src/epoch.rs:45-54 | running two stretches of epochs one after the other: the first stretch's error wins, else the second's outcome |
| Causal.AddToActiveSpec | operation/src/epoch.rs:147-152 | each registered active branch id gains the new leaf index once, and no other entry changes |
| Causal.FirstRepeatNone | operation/src/epoch.rs:95-98 | no repeat means no id was seen before and none occurs twice |
| Causal.FirstRepeatSome | operation/src/epoch.rs:155-158 | a reported repeat is an id that was seen earlier in the walk |
| Causal.SpansKeys | operation/src/epoch.rs:99 | exactly the ids of a node (branch and leaf ids alike) resolve |
| Causal.SpansBound | operation/src/epoch.rs:147-152 | a branch or leaf id resolves only to leaves beneath it |
| Causal.CollectLeafCorrect | operation/src/epoch.rs:126-163 | `Collect`: a leaf is pushed with the ancestors' references before its own, is added to every active branch, and a repeated leaf id fails with `DuplicateId` |
| Causal.CollectNamedBranchCorrect | operation/src/epoch.rs:84-125 | `Collect`: a named branch registers its id (a repeat fails with `DuplicateId`), passes its references to its children only, and resolves to exactly its leaves |
| Causal.CollectCorrect | operation/src/epoch.rs:83-164 | `Collect`: the walk of a node fails exactly at the first repeated id, else appends its leaves with inherited references and registers its ids with their leaf spans |
| Causal.CollectAllCorrect | operation/src/epoch.rs:106-116 | walking the children in order fails at the first repeated id, else advances by all their leaves and ids |
| Causal.CollectTreeCorrect | operation/src/epoch.rs:167-179 | from the root: the first repeated id, or the leaves in order with inherited references and each id mapped to the leaves beneath it |
| Causal.RefEdgesSpec | operation/src/epoch.rs:186-205 | one reference list fails at its first unknown id with the matching `UnknownBeforeRef`/`UnknownAfterRef`, else yields exactly the edges to (before) or from (after) the leaf |
| Causal.LeafEdgesOk | operation/src/epoch.rs:185-206 | the edge loop succeeds exactly when every reference of every leaf resolves |
| Causal.LeafEdgesError | operation/src/epoch.rs:185-206 | a failing edge loop reports the first unresolved reference of the first leaf that has one, `before` before `after` |
| Causal.LeafEdgesPairs | operation/src/epoch.rs:185-206 | a successful edge loop yields exactly the pairs (u, v) where v's before names u or u's after names v |
| Causal.TreeEdgesGraph | operation/src/epoch.rs:181-206 | the edges join leaves of the tree and u precedes v in the graph exactly when the constraints say so |
| Causal.LeafEpochs | operation/src/epoch.rs:62-249 | the builder returns the reference outcome: duplicate id, else unknown reference, else the layering (or a cycle); leaves in walk order, waves without repeats |
| Causal.GatherEpochs | operation/src/epoch.rs:222-230 | each epoch lists, in wave order, the payloads of the leaves its wave names |
| Causal.PayloadEpochs | operation/src/epoch.rs:62-249 | the epochs as returned: the reference outcome, and on success a partition of the leaves whose epochs hold their payloads |
| Causal.LayeredPartition | operation/src/epoch.rs:218-249 | on success every leaf is in exactly one epoch, exactly once |
| Causal.LayeredForward | operation/src/epoch.rs:185-249 | on success a leaf that must precede another is in a strictly earlier epoch |
| Causal.LayeredDepth | operation/src/epoch.rs:218-241 | on success a leaf's epoch is 0 iff nothing must precede it, else one more than the latest epoch of a leaf that must |
| Causal.LayeredAcyclic | operation/src/epoch.rs:244-249 | on success no chain of precedences closes on itself |
| Causal.CycleWitness | operation/src/epoch.rs:244-247 | `CycleDetected` carries a positive remaining count and a closed chain of precedences exists |
| OperationEpoch.SplitByType | operation/src/epoch.rs:222-230 | an epoch's operations sorted by type: the package operations, all of them, in order |
| OperationEpoch.TreeToEpochs | operation/src/epoch.rs:62-249 | the builder's outcome, and on success a partition of the leaves whose epoch k lists the package operations of wave k in order |
| OperationEpoch.SplitGathered | operation/src/epoch.rs:224-230 | splitting gathered payload epochs by type keeps every operation in its epoch and place |
| AptResource.Resources | resource/src/resources/apt.rs:67-76 | one resource per named package, in order, for the single and the list form |
| AptResource.State | resource/src/resources/apt.rs:79-82 | the built-in probe always succeeds and reports "not installed" |
| AptResource.Change | resource/src/resources/apt.rs:85-93 | a change is needed exactly when the package is not installed, and it installs that package |
| AptResource.Operations | resource/src/resources/apt.rs:95-103 | an install change is exactly one apt install of a one-element package list |
| ResourcePipeline.Atoms | resource/src/lib.rs:50-52 | the atoms of the specs are one resource per package they name, in order |
| ResourcePipeline.SpecsToResources | resource/src/lib.rs:39-56 | no specs give no resources; otherwise one apt resource per named package, in order |
| ResourcePipeline.QueryStates | resource/src/lib.rs:59-74 | one state per resource in order, or the first probe error with every earlier probe succeeding |
| ResourcePipeline.QueryStatesBuiltIn | resource/src/lib.rs:59-74 | with the built-in probe, querying succeeds and reports every resource not installed |
| ResourcePipeline.ResourcesToChanges | resource/src/lib.rs:78-99 | lists of different lengths stop the program (`LengthsDiffer`), exactly then; otherwise every change comes from some resource's needed change, and there are no more changes than resources |
| ResourcePipeline.ResourcesToChangesSingle | resource/src/lib.rs:88-98 | one resource gives an install of its package exactly when it is not installed, and nothing otherwise |
| ResourcePipeline.ResourcesToChangesAppend | resource/src/lib.rs:88-98 | the changes of two stretches of paired inputs are the first stretch's followed by the second's: with the one-resource case, exactly the needed changes in input order |
| ResourcePipeline.ResourcesToChangesComplete | resource/src/lib.rs:88-98 | every resource that is not installed contributes an install of its package |
| ResourcePipeline.ResourcesToChangesAll | resource/src/lib.rs:88-98 | when nothing is installed, the changes follow the resources one for one, in order |
| ResourcePipeline.ChangesToOperations | resource/src/lib.rs:102-114 | the in-order concatenation of each change's operations: one single-package install per change |
| ResourcePipeline.EpochInstallsSpecPackages | resource/src/lib.rs:39-114 | the whole pipeline for an epoch, merged, installs each package the specs name exactly once, sorted, and nothing when they name none |
| ResourcePipeline.ComputeEpochs | resource/src/epoch.rs:24-204 | the causal builder's outcome over a resource tree; on success each spec is in exactly one epoch, with the layering's properties |
| StackOperation.Group | stack/src/operation.rs:95-101 | a package is in the group exactly when some operation names it |
| StackOperation.GroupAppend | stack/src/operation.rs:95-101 | grouping concatenates package lists in input order, with no de-duplication |
| StackOperation.GroupSingle | stack/src/operation.rs:95-101 | the group of one operation holds exactly its packages |
| StackOperation.GroupByKind | stack/src/operation.rs:48-65 | the result always has exactly the one key `Package`, even for no operations, and its group holds every package named |
| StackOperation.ApplyPackageGroup | stack/src/operation.rs:104-115 | applying never fails and says "nothing to do" exactly for an empty group, else lists the packages joined by ", " |
| StackOperation.ApplyGroup | stack/src/operation.rs:123-130 | applying a group applies its package group: never fails, "nothing to do" exactly when empty |
| StackOperation.IntoListLeaves | stack/src/operation.rs:157-169 | `IntoList`: the list holds exactly the events at the tree's leaves |
| StackOperation.ToCausalLeaves | stack/src/operation.rs:157-169 | `IntoList`: flattening yields the leaf events in left-to-right preorder, no branches |
| StackOperation.ListPrecedesIff | stack/src/operation.rs:209-226 | with unique ids, the builder's precedence between events is exactly "v.before names u, or u.after names v" |
| StackOperation.LeafEdgesBadRef | stack/src/operation.rs:209-226 | the edge loop fails exactly at the list's first unknown reference, `before` checked before `after` |
| StackOperation.ListOutcome | stack/src/operation.rs:191-269 | a repeated id is reported first, then the first unknown reference; otherwise success exactly when no chain of constraints closes |
| StackOperation.IntoEpochs | stack/src/operation.rs:191-272 | layering the list: duplicate ids, then unknown references, then cycles (with a positive remaining count); on success a partition in which constrained events are in strictly earlier epochs |
| StackOperation.ListDepth | stack/src/operation.rs:239-263 | on success an event's epoch is 0 iff nothing must precede it, else one more than the latest epoch of an event that must |
| StackOperation.ExpectedAcyclic | stack/src/operation.rs:265-271 | a successful outcome leaves no cycle of constraints |
| StackOperation.IntoListOutcome | stack/src/operation.rs:157-272 | flattening the event tree and layering the list gives the same outcome as the causal builder on the tree |
| StackOperation.GroupEpoch | stack/src/operation.rs:288-293 | an epoch's group holds every package its operations name, and is empty exactly when they name none |
| StackOperation.GroupEpochs | stack/src/operation.rs:298-305 | grouping keeps the number and order of epochs |
| StackOperation.ApplyEpoch | stack/src/operation.rs:322-327 | an epoch applies its package group once, and says "nothing to do" exactly for an empty group |
| StackOperation.ApplyAll | stack/src/operation.rs:321-329 | epochs are applied in order, stopping at the first error, which never happens |
| StackOperation.ApplyGroupedEpochs | stack/src/operation.rs:298-329 | grouped epochs report one line per epoch in order, "nothing to do" exactly for epochs naming no package |
| AptOps.Merge | operation/src/ops/apt.rs:21-42 | nothing iff no package is named; else exactly one install of the strictly sorted set of named packages |
| AptOps.MergeCanonical | operation/src/ops/apt.rs:21-33 | the merge ignores order, how packages are split among operations, and repeats |
| AptOps.MergePermutation | operation/src/ops/apt.rs:21-33 | any permutation of the operations merges the same |
| AptOps.MergeIdempotent | operation/src/ops/apt.rs:21-42 | merging the merged output again gives the same output |
| AptOps.Apply | operation/src/ops/apt.rs:44-59 | applying never fails and logs one line per install, in order: `[apt] nothing to install` exactly for an install without packages, otherwise `[apt] install: ` and its packages joined by ", " |
| AptOps.ApplyAppend | operation/src/ops/apt.rs:45-57 | the log of two stretches of installs is the first's followed by the second's |
| AptOperations.Merge | operation/src/operations/apt.rs:39-66 | at most two operations: `Update` first iff some input is `Update`, then an install of the sorted, duplicate-free union iff it is non-empty |
| AptOperations.MergePermutation | operation/src/operations/apt.rs:43-54 | the merge does not depend on input order |
| AptOperations.MergeIdempotent | operation/src/operations/apt.rs:39-66 | merging the merged output again gives the same output |
| AptOperations.Display | operation/src/operations/apt.rs:15-24 | `Apt::Update`, or `Apt::Install(packages = [` ... `])` |
| AptOperations.DisplayExamples | operation/src/operations/apt.rs:15-24 | `Install(["a","b"])` shows as `Apt::Install(packages = [a, b])`, an empty install as `Apt::Install(packages = [])` |
| AptOperations.ApplyCommand | operation/src/operations/apt.rs:70-99 | an empty install runs nothing; otherwise `sudo -n apt-get update` or `... install -y <packages>` with the non-interactive frontend and output shown |
| AptOperations.Apply | operation/src/operations/apt.rs:70-99 | an empty install succeeds without a command; otherwise the outcome is the command's, its failure wrapped |
| PackageOps.ParamTypes | operation/src/ops/package.rs:36-56 | the schema is the two-case union `{package: string}` then `{packages: list of string}` |
| PackageOps.ParamTypesAccept | operation/src/ops/package.rs:36-56 | the schema accepts exactly values of the single-package or the package-list shape |
| PackageOps.ValidatedParamsRead | operation/src/ops/package.rs:24-29 | values the schema accepts always read as parameters, in the shape they have |
| PackageOps.ParamsFromValues | operation/src/ops/package.rs:24-29 | the single-package shape is read only from a string `package` entry |
| PackageOps.New | operation/src/ops/package.rs:60-67 | a single package becomes a one-element list, a list is kept unchanged |
| PackageOps.Atoms | operation/src/ops/package.rs:71-80 | one atom per package of each operation, in order; the count is the total number of packages |
| PackageOps.Delta | operation/src/ops/package.rs:91-97 | every atom has a delta installing exactly its package |
| PackageOps.Apply | operation/src/ops/package.rs:110-126 | the batch holds each package named by a delta exactly once, sorted; applying never fails |
| PackageOps.AtomDeltasPackages | operation/src/ops/package.rs:71-97 | atoms and their deltas give back every package, in order |
| PackageOps.ApplyCanonical | operation/src/ops/package.rs:110-118 | the batch ignores delta order, how packages are split, and repeats |
| PackageOps.EpochBatch | operation/src/ops/package.rs:71-126 | the batch of an epoch installs exactly the packages of its operations |
| Command.New | cmd/src/lib.rs:46-51 | a new command has the program, no arguments, no environment changes, no directory and stdout not shown |
| Command.Arg | cmd/src/lib.rs:53-56 | one argument is appended and nothing else changes |
| Command.Args | cmd/src/lib.rs:58-65 | the arguments are appended in order and nothing else changes |
| Command.SetEnv | cmd/src/lib.rs:67-74 | setting a variable replaces any earlier change to it and keeps the others |
| Command.Env | cmd/src/lib.rs:67-74 | after `env`, the variable is set to the value; program and arguments are unchanged |
| Command.CurrentDir | cmd/src/lib.rs:86-89 | the working directory is set; program and arguments are unchanged |
| Command.Stdout | cmd/src/lib.rs:91-94 | the stdout flag is set; program and arguments are unchanged |
| Command.Display | cmd/src/lib.rs:28-43 | the line starts with the program and is the program alone exactly when the joined arguments are empty |
| Command.DisplayArg | cmd/src/lib.rs:28-43 | adding an argument to a command showing arguments adds one space and the argument |
| Command.DisplayExamples | cmd/src/lib.rs:200-216 | `lusid`, `lusid -a` and `lusid -a -b` for no, one and two arguments |
| Command.SetValues | cmd/src/lib.rs:111-115 | the environment changes passed on are exactly those that set a value |
| Command.Sudo | cmd/src/lib.rs:100-122 | program `sudo` with arguments `-n`, the original program and the original arguments; stdout flag and directory kept; exactly the variables with values passed |
| Command.SudoDisplay | cmd/src/lib.rs:100-122 | the privileged command line is the original behind `sudo -n ` |
| Command.Run | cmd/src/lib.rs:140-168 | success exactly for a spawned process that exits successfully, returning its output; a spawn error or a `Failure` naming the command line and its error output otherwise |
| Command.Handle | cmd/src/lib.rs:170-193 | success goes to the stdout handler; on failure the stderr handler's error or value is returned, and only when it declines is the result a `Failure` |
| Command.HandleRun | cmd/src/lib.rs:157-193 | `handle` fails exactly when `run` would and the stderr handler declines, with the same error |
| Os.Display | system/src/os.rs:28-44 | the display is `linux-` followed by the distribution's display |
| Os.DisplayInjective | system/src/os.rs:28-44 | different systems display differently |
| Os.DecimalRoundTrip | system/src/os.rs:32 | the decimal form of a Debian version reads back as the number |
| Os.ValidateUbuntuVersion | system/src/os.rs:46-71 | an accepted version is returned unchanged |
| Os.UbuntuVersionSpec | system/src/os.rs:54-70 | accepted exactly for "YY.MM" with month 01-12; "expected YY.MM" exactly when the string does not have one dot |
| Os.TwoPartsSpec | system/src/os.rs:59-70 | with two dot-separated pieces, accepted exactly when both are two digits and the month is 1 to 12 |
| Os.SplitDots | system/src/os.rs:54-57 | the number of pieces is one more than the number of dots |
| Os.UbuntuAcceptsExample | system/src/os.rs:78-87 | "22.04" is accepted as it is |
| Os.UbuntuRejectsExample | system/src/os.rs:89-98 | "22.15" is rejected with the "invalid Ubuntu version" error |
| Os.DisplayExamples | system/src/os.rs:78-119 | `linux-ubuntu-22.04`, `linux-debian-12` and `linux-arch` |
| Paths.Parse | flow/src/id.rs:33-38 | a path is absolute exactly when its text starts with a slash |
| Paths.Parent | flow/src/id.rs:33-36 | the parent is the path without its last component, and there is none for the root or the empty path |
| Paths.Join | flow/src/id.rs:33-38 | joining an absolute path replaces the base; a relative one extends it |
| Paths.ParseValid | flow/src/id.rs:33-38 | every parsed path is a valid component list |
| Paths.JoinValid | flow/src/id.rs:33-38 | joining valid paths gives a valid path |
| Paths.ParentOfJoin | flow/src/id.rs:33-38 | the parent of a base joined with one name is the base |
| Paths.ParseDisplay | flow/src/id.rs:61 | writing a valid path out as text and parsing it back gives the same path |
| PlanIds.Relative | flow/src/id.rs:33-38 | an absolute next path is taken as it is |
| PlanIds.Join | flow/src/id.rs:16-23 | the kind of id and the Git URL are kept, and the path is the current path's parent joined with the next path |
| PlanIds.JoinSibling | flow/src/id.rs:16-38 | naming a sibling by a single name stays in the current plan's directory and ends in that name |
| PlanIds.JoinAbsolute | plan/src/id.rs:13-28 | an absolute next path is the result's path, whatever the current plan |
| PlanIds.JoinNoParent | plan/src/id.rs:23-28 | with no parent, the next path is joined onto the empty path |
| PlanIds.AsPath | flow/src/id.rs:25-30 | `Some` of the path exactly for a local id, `None` for Git |
| PlanIds.ToStoreItemId | flow/src/id.rs:49-56 | a local id becomes the local file of the same path; a Git id has no store key |
| PlanIds.SourceIdNamesPath | flow/src/id.rs:58-69 | a local id's source name reads back as its path; a Git id's is the URL with a `path` query pair holding the path |
| LudisConfig.ResolvePlanId | ludis/src/config.rs:147-160 | fails exactly for a relative plan path when the base has no parent, with `ResolvingPlanPath(base, plan)`; otherwise a path id |
| LudisConfig.ResolveAgreesWithPlanJoin | ludis/src/config.rs:147-160 | a resolved plan path is the one a plan at the base would reach by naming it |
| LudisConfig.ResolveAll | ludis/src/config.rs:66-78 | on success there is one resolved entry per table entry |
| LudisConfig.ResolveAllOk | ludis/src/config.rs:66-78 | resolution succeeds iff every plan resolves, keeping each name and machine in order and resolving each plan on its own |
| LudisConfig.ResolveAllErr | ludis/src/config.rs:66-78 | a failure reports the first relative plan path, and the base has no parent |
| LudisConfig.ConfigFile | ludis/src/config.rs:128-133 | a directory is read as `ludis.toml` inside it; any other path is read as given |
| LudisConfig.ReadTable | ludis/src/config.rs:134-144 | reading fails exactly when the file cannot be read or parsed, with a `Read` or `Parse` error naming the file |
| LudisConfig.LoadAsWritten | ludis/src/config.rs:63-83 | the loaded config keeps the path it was given |
| LudisConfig.LoadAsWrittenMisplacesPlan | ludis/src/config.rs:63-83 | for a directory, a relative plan is resolved against the directory's parent instead of beside the file read |
| LudisConfig.Load | ludis/src/config.rs:63-83 | the loaded config keeps the path it was given |
| LudisConfig.LoadResolvesBesideFile | ludis/src/config.rs:63-83 | each loaded machine keeps its name and description, and its plan resolves beside the file read: inside the directory for a directory path |
| LudisConfig.GetMachine | ludis/src/config.rs:85-87 | a machine is found exactly when an entry has that name |
| LudisConfig.LocalMachine | ludis/src/config.rs:93-98 | no machine without a hostname; a found machine has this host's hostname |
| LudisConfig.LocalMachineFirst | ludis/src/config.rs:93-98 | the first entry in key order with the hostname, and none exactly when no entry has it |
| LudisConfig.DiscoverPath | ludis/src/machines.rs:142-155 | the environment's path if it exists; a found path always exists; not found carries a path that does not exist |
| LudisConfig.DiscoverPathFallback | ludis/src/machines.rs:149-154 | the fallback candidate is `machines.toml` directly in the working directory |
| LudisConfig.MachinesLoad | ludis/src/machines.rs:62-83 | a loaded `machines.toml` exists |
| LudisConfig.MachinesLoadResolvesBesideFile | ludis/src/machines.rs:62-83 | every machine keeps its name and description, and its plan resolves beside the file found |
| Rimu.Find | params/src/lib.rs:97-99 | the first position holding the key, and none exactly when no entry has it |
| Rimu.Get | params/src/lib.rs:97-99 | a value is found exactly when some entry has the key, and it is that entry's value |
| Rimu.GetEntry | params/src/lib.rs:97-99 | in a map without repeated keys, looking up a stored key gives its stored value |
| Rimu.SwapRemove | params/src/lib.rs:153-155 | the removed value is what a lookup would find; with the key absent nothing changes, otherwise one entry fewer |
| Rimu.SwapRemoveOrigin | params/src/lib.rs:195 | every remaining entry is an original entry other than the removed one, and every other original entry remains |
| Rimu.SwapRemoveUnique | params/src/lib.rs:195 | removing keeps keys distinct |
| Rimu.SwapRemoveGet | params/src/lib.rs:195-207 | after removal the key is gone and every other key finds the same value as before |
| RimuInterop.FromRimuSpanned | avo/src/rimu_interop.rs:10-19 | succeeds exactly when the bare value converts; the outcome is that conversion labelled with the value's span |
| RimuInterop.DecodeEntries | avo/src/params.rs:115-135 | on success there is one decoded entry per object entry |
| RimuInterop.DecodeEntriesOk | avo/src/params.rs:115-135 | decoding succeeds iff every entry converts, keeping keys in order and each converted value with its span |
| RimuInterop.DecodeEntriesErr | avo/src/params.rs:122-131 | a failure names the first entry that does not convert, with its spanned error |
| AvoParams.TypesFromRimu | avo/src/params.rs:115-118 | a non-object is refused as `NotAnObject`; a decoded schema has as many entries as the object |
| AvoParams.TypesFromRimuOk | avo/src/params.rs:115-135 | an object decodes iff every entry is a type; the schema keeps names, order and spans |
| AvoParams.TypesFromRimuErr | avo/src/params.rs:122-131 | a failure is `Entry` naming the first entry in object order whose type does not decode, with that spanned error |
| AvoParams.ValuesGet | avo/src/params.rs:139-142 | a value is found exactly when an entry has that name, and it is stored under it |
| AvoParams.TypesToRimu | avo/src/params.rs:8-18 | a schema writes out as an object with the same names in the same order |
| AvoParams.TypesRoundTrip | avo/src/params.rs:60-135 | every schema written out reads back unchanged, names, order and spans included |
| Params.ValuesFromRimu | params/src/lib.rs:84-89 | values decode exactly from an object |
| Params.ValuesIntoRimu | params/src/lib.rs:93-95 | values are written out as an object |
| Params.ValuesRoundTrip | params/src/lib.rs:84-95 | values written out read back unchanged |
| Params.ValuesRoundTripBack | params/src/lib.rs:84-95 | whatever was read from an object writes back as that object |
| Params.TypeFromRimu | params/src/lib.rs:134-141 | a non-object is `NotAnObject`; an object without "type" is `HasNoType` |
| Params.TypeFromRimuName | params/src/lib.rs:139-172 | a decoded type is the kind its "type" string names |
| Params.TypeRoundTrip | params/src/lib.rs:134-175 | every type, nested list and object types included, written out as a type object reads back unchanged |
| Params.TypeErrorOrder | params/src/lib.rs:134-172 | each of the six errors is reported exactly when every earlier check has passed and its own check fails |
| Params.TypeFromRimuLooksAt | params/src/lib.rs:139-172 | only "type", "item" and "value" decide the outcome |
| Params.FieldFromRimu | params/src/lib.rs:190-205 | a non-object is `NotAnObject`; a non-boolean "optional" is refused with its span; a field is optional exactly when "optional" is `true` |
| Params.FieldTypeUndisturbed | params/src/lib.rs:195-209 | taking "optional" out leaves the type decoding unchanged, and a type error is passed on as `FieldType` |
| Params.FieldsFromEntries | params/src/lib.rs:244-256 | on success one field per entry |
| Params.FieldsFromEntriesSpec | params/src/lib.rs:244-256 | succeeds iff every entry is a field, keeping keys and order; otherwise names the first failing entry and its error |
| Params.CasesFromItems | params/src/lib.rs:263-289 | succeeds iff every item is an object of fields, one case per item in order; otherwise the first failing item's error, with its union index |
| Params.TypesFromRimu | params/src/lib.rs:238-292 | an object gives a struct with the same keys; a list gives a union with one case per item; anything else is `NotAnObjectOrList` |
| Params.ValidateType | params/src/lib.rs:357-414 | succeeds exactly when the value has the type; a wrong outer shape is a mismatch naming both; a list or object error names the first failing index or key |
| Params.ValidateItems | params/src/lib.rs:385-394 | none exactly when every item from `i` on has the item type; otherwise the first that does not, with its error |
| Params.ValidateEntries | params/src/lib.rs:402-411 | none exactly when every entry from `i` on has the value type; otherwise the first that does not, with its key and error |
| Params.FieldErrors | params/src/lib.rs:423-445 | no problems exactly when every field accepts the values; at most one problem per field |
| Params.FieldError | params/src/lib.rs:427-444 | a problem exactly when the field is missing though required, or present with a badly typed value |
| Params.FieldErrorsSound | params/src/lib.rs:423-445 | every reported problem belongs to some field |
| Params.FieldErrorsComplete | params/src/lib.rs:423-445 | every field that does not accept the values has its problem reported |
| Params.UnknownErrors | params/src/lib.rs:448-455 | exactly the value entries that name no field are reported, as `UnknownParam` with their value |
| Params.ValidateStruct | params/src/lib.rs:416-462 | succeeds exactly when every field accepts and no key is unknown; a failure has at least one problem |
| Params.ValidateStructErrors | params/src/lib.rs:416-462 | a failure reports every failing field and every unknown key, and nothing else |
| Params.Validate | params/src/lib.rs:466-502 | no schema accepts anything; a struct accepts exactly matching values; a union accepts iff some case matches, else one `UnionNoMatch` with each case's problems in case order |
| Params.FirstOk | params/src/lib.rs:488-493 | a chosen candidate passes; otherwise one error per candidate |
| Params.FirstOkSpec | params/src/lib.rs:488-499 | the chosen candidate is the first that passes; with none passing each error sits at its candidate's position |
| Params.FirstMatch | params/src/lib.rs:486-499 | a chosen case fits; otherwise one problem list per case |
| Params.FirstMatchSpec | params/src/lib.rs:486-499 | the chosen case is the first that fits; with none fitting each case's problems sit at its position |
| ArenaTree.AppendElement | tree/src/lib.rs:557-598 | flattening never shrinks the arena: nodes are only pushed |
| ArenaTree.AppendAll | tree/src/lib.rs:592-594 | flattening a list of children never shrinks the arena |
| ArenaTree.AppendElementInserts | tree/src/lib.rs:557-598 | the recursive flattening of an element is the insertion of its preorder entry list |
| ArenaTree.AppendAllInserts | tree/src/lib.rs:592-594 | flattening children in order is inserting their concatenated preorder lists |
| ArenaTree.InsertAppend | tree/src/lib.rs:592-594 | inserting two lists is inserting the first and, unless it failed, then the second |
| ArenaTree.InsertError | tree/src/lib.rs:568-580 | insertion fails exactly at the first id already mapped or repeated earlier in the list |
| ArenaTree.InsertPrefix | tree/src/lib.rs:557-598 | nothing is rolled back: a failed insertion leaves the old nodes followed by every node pushed before the error |
| ArenaTree.InsertStopsAt | tree/src/lib.rs:568-580 | success exactly when every entry is pushed; failure reports the first entry not pushed |
| ArenaTree.InsertOkNodes | tree/src/lib.rs:571-590 | a successful insertion appends every node in preorder |
| ArenaTree.InsertOkKeys | tree/src/lib.rs:576-590 | a successful insertion maps the old ids and the new ids and no others |
| ArenaTree.InsertKeepsOld | tree/src/lib.rs:568-590 | an id already mapped never moves |
| ArenaTree.InsertOkIndex | tree/src/lib.rs:571-590 | each new id maps to the base plus the position of its own node |
| ArenaTree.InsertOkFresh | tree/src/lib.rs:568-580 | a successful insertion only adds ids that were not mapped |
| ArenaTree.FromElementsError | tree/src/lib.rs:75-89 | `FromElements`: a tree is built exactly when the preorder ids are all distinct; otherwise the error names the first id met twice |
| ArenaTree.FromElementsInserts | tree/src/lib.rs:75-89 | `FromElements`: building is inserting the preorder list into an empty arena at base 0, rooted at the root element's id |
| ArenaTree.FromElementsNodes | tree/src/lib.rs:75-89 | `FromElements`: a built tree is rooted at the root element's id and holds its nodes in preorder |
| ArenaTree.FromElementsIndex | tree/src/lib.rs:75-89 | `FromElements`: a built tree maps exactly the element's ids, each to the position of its own node |
| ArenaTree.Contains | tree/src/lib.rs:107-109 | true exactly for mapped ids |
| ArenaTree.Get | tree/src/lib.rs:111-113 | a node exactly for a contained id, and it is the node at that id's index |
| ArenaTree.FromElementsGet | tree/src/lib.rs:75-113 | in a built tree every id of the element finds its own node |
| ArenaTree.AddChildrenOutcome | tree/src/lib.rs:121-148 | `AddChildren`: an unknown parent is `Missingid` and a leaf parent `NotABranch`, both leaving the tree unchanged; under a branch, failure exactly when the new elements repeat an id, reported as the first one |
| ArenaTree.AddChildrenNoRollback | tree/src/lib.rs:136-141 | `AddChildren`: a failed addition keeps the nodes flattened before the repeated id and leaves the parent's children unchanged |
| ArenaTree.AddChildrenOk | tree/src/lib.rs:121-148 | `AddChildren`: a successful addition appends the new nodes, maps their ids to their positions, keeps every old id, appends the new root ids to the parent's children, and changes no other node |
| ArenaTree.AddChildrenForward | tree/src/lib.rs:121-148 | adding children keeps every child after its parent |
| ArenaTree.MapNodes | tree/src/lib.rs:163-172 | each node is mapped on its own, in order |
| ArenaTree.Map | tree/src/lib.rs:150-179 | ids, root, kinds, children and meta are kept; a present leaf payload is replaced by its image and an absent one stays absent |
| ArenaTree.MapOption | tree/src/lib.rs:262-291 | shape is kept; a present leaf payload becomes the function's optional image and an absent one stays absent |
| ArenaTree.MapCompose | tree/src/lib.rs:150-179 | mapping twice is mapping once with the composition |
| ArenaTree.MapIsMapOption | tree/src/lib.rs:150-291 | mapping is optional mapping to payloads that are always present |
| ArenaTree.MapOptionForward | tree/src/lib.rs:262-291 | mapping keeps every child after its parent |
| ArenaTree.MapResultNodes | tree/src/lib.rs:194-208 | succeeds exactly when no present payload is rejected; otherwise the first rejection in node order is the error |
| ArenaTree.MapResult | tree/src/lib.rs:181-215 | succeeds exactly when no present payload is rejected; otherwise the first rejection in node order is the error |
| ArenaTree.MapResultNodesTotal | tree/src/lib.rs:194-208 | with a function that never fails, the node list is mapped plainly |
| ArenaTree.MapResultTotal | tree/src/lib.rs:150-215 | with a function that never fails, the fallible map is the plain map |
| ArenaTree.Reshaped | tree/src/lib.rs:312-344 | each original node is rewritten on its own, in place |
| ArenaTree.ExpandTotal | tree/src/lib.rs:312-344 | with a function that never fails, the expansion loop is one insertion of the flattened expansion at the original length |
| ArenaTree.ExpandError | tree/src/lib.rs:375-407 | an expansion error is either the function's error on some present payload or a reported repeated id |
| ArenaTree.MapTreeError | tree/src/lib.rs:293-354 | fails exactly when the flattened expansion repeats an id or reuses an original one, and with the first such id |
| ArenaTree.MapTreeInserts | tree/src/lib.rs:293-354 | the expansion is the reshaped original nodes followed by the inserted tail, with the original root |
| ArenaTree.MapTreeNodes | tree/src/lib.rs:293-354 | the root and original positions are kept, present payloads become branches over their elements, and the flattened elements follow |
| ArenaTree.MapTreeIndex | tree/src/lib.rs:293-354 | original ids keep their positions and new ids map to their nodes after the original ones |
| ArenaTree.MapTreeForward | tree/src/lib.rs:293-354 | expansion keeps every child after its parent |
| ArenaTree.MapTreeResultTotal | tree/src/lib.rs:356-417 | with a function that never fails, the fallible expansion is the plain one with repeated ids reported as structural |
| ArenaTree.MapTreeResultUser | tree/src/lib.rs:384 | a user error is the function's own error on some present payload |
| ArenaTree.BuildShape | tree/src/lib.rs:504-542 | a rebuilt element has the id asked for and no empty branch |
| ArenaTree.BuildAt | tree/src/lib.rs:504-542 | rebuilding an element laid out in the arena is pruning it with the payload map |
| ArenaTree.FromElementsForward | tree/src/lib.rs:75-89 | a built tree has every child after its parent |
| ArenaTree.ToElementsPrunes | tree/src/lib.rs:262-291 | `ToElements`: optional mapping of a built tree and rebuilding nested elements is pruning the element with the same map |
| ArenaTree.PruneKeepAll | tree/src/lib.rs:523-539 | keeping every payload prunes nothing from an element without empty branches |
| ArenaTree.MapOptionKeepAll | tree/src/lib.rs:262-291 | optional mapping that keeps every payload leaves the tree unchanged |
| ArenaTree.ToElementsRoundTrip | tree/src/lib.rs:499-545 | `ToElements`: flattening an element without empty branches and rebuilding it gives it back |
| ArenaTree.CompactIdempotent | tree/src/lib.rs:547-554 | `Compact`: compacting a compacted tree changes nothing |
| PlanDecode.NameFromRimu | plan/src/plan.rs:18-27 | a name decodes exactly from a string, and is that string |
| PlanDecode.VersionFromRimu | plan/src/plan.rs:38-47 | a version decodes exactly from a string, and is that string |
| PlanDecode.SetupFromRimu | plan/src/plan.rs:195-204 | setup decodes exactly from a function value, and is that function |
| PlanDecode.IsCoreModule | plan/src/plan.rs:62-64 | a core module id exactly when the module starts with "@core/", and "@core/" followed by the id is the module |
| PlanDecode.StringItems | plan/src/plan.rs:131-145 | succeeds exactly when every item is a string, keeping each string with its span in order |
| PlanDecode.StringItemsErr | plan/src/plan.rs:133-142 | a failure is the span of the first item that is not a string |
| PlanDecode.RefList | plan/src/plan.rs:126-149 | an absent list is empty; a non-list is `NotAList` with its span; a list is read in order or fails at its first non-string item |
| PlanDecode.CallFromRimu | plan/src/plan.rs:92-95 | a non-object is refused as `NotAnObject` |
| PlanDecode.CallErrorOrder | plan/src/plan.rs:92-183 | a call decodes exactly when module, id, params, before and after are all acceptable; otherwise the first unacceptable one in that order decides the error |
| PlanDecode.CallFields | plan/src/plan.rs:97-124 | a decoded call holds the module string and the optional id and params exactly as the object gives them, with their spans |
| PlanDecode.CallRefs | plan/src/plan.rs:126-174 | each reference list names, in order, the strings of the list it was read from; an absent one is empty |
| PlanDecode.RefItemReported | plan/src/plan.rs:126-149 | a "before" list that is not all strings is reported at its first non-string item |
| PlanDecode.Optional | plan/src/plan.rs:239-252 | an absent property is `None`; a present one decodes or fails as its converter does, with its span |
| PlanDecode.DefinitionFromRimu | stack/src/block.rs:209-212 | a non-object is refused |
| PlanDecode.PlanFromRimu | plan/src/plan.rs:234-237 | a non-object is refused |
| PlanDecode.DefinitionErrorOrder | plan/src/plan.rs:234-266 | a plan decodes exactly when name, version and params are acceptable and setup is a function; otherwise the first failing property in that order decides the error |
| PlanDecode.DefinitionSetup | plan/src/plan.rs:239-265 | a decoded plan holds the setup function with its span, a name and params exactly when present, and the params as decoded |
| PlanEval.DecodeActions | plan/src/eval.rs:35-41 | on success one call per returned item |
| PlanEval.DecodeActionsOk | plan/src/eval.rs:35-41 | succeeds exactly when every item decodes as a call, giving each item's call with its span in order |
| PlanEval.DecodeActionsErr | plan/src/eval.rs:36-38 | a failure is the first undecodable item's error with that item's span |
| PlanEval.Evaluate | plan/src/eval.rs:26-28 | a `Call` error exactly when calling setup fails |
| PlanEval.EvaluateCallsOnce | plan/src/eval.rs:23-28 | setup is called once, with the parameter values as one object labelled with their span, and nothing else decides the outcome |
| PlanEval.EvaluateResult | plan/src/eval.rs:29-41 | a non-list result is `ReturnedNotList`; a list gives one call per item in order or an `InvalidPlanAction` error |
| PlanCore.PackageOperationFor | plan/src/core.rs:27-39 | succeeds exactly when the values pass the package schema and read as package parameters; a validation failure is reported as such |
| PlanCore.CoreModule | plan/src/core.rs:7-21 | missing params fail first; any id but "pkg" is unsupported; "pkg" builds a package operation |
| PlanCore.PackageModuleSpec | plan/src/core.rs:7-39 | "pkg" accepts exactly the one-package and package-list shapes, fails only at validation, and installs the named packages |
| PlanCore.CoreModuleId | plan/src/core.rs:23-25 | a core module id exactly when the module starts with "@core/", and it is what follows |
| PlanExpand.RefIds | plan/src/lib.rs:105-114 | each reference becomes its id string, in order |
| PlanExpand.NodeId | plan/src/lib.rs:101 | an id exactly when the call has one, and it is the call's string |
| PlanExpand.Prepare | plan/src/lib.rs:54-68 | a plan that cannot be prepared either stops the program or returns an error, never a result |
| PlanExpand.PrepareOrder | plan/src/lib.rs:54-68 | a Git plan, an unreadable or non-UTF-8 source stop the program; otherwise a parse error, then a validation error, then an evaluation error is returned, in that order of precedence |
| PlanExpand.ValidateBeforeEvaluate | plan/src/lib.rs:67-68 | values the schema rejects give that validation error whatever setup would do |
| PlanExpand.PlanCalls | plan/src/lib.rs:67-77 | `PlanRecursive`: when the plan parses, validates and evaluates, planning it is planning its calls one level deeper |
| PlanExpand.PlanTree | plan/src/lib.rs:32-47 | the calls' nodes go under a root branch with no id and no references; an error passes through unchanged |
| PlanExpand.ActionNode | plan/src/lib.rs:87-152 | a node keeps its call's id, before and after; a built-in call is a leaf holding its operation, any other call a branch over the named plan's nodes |
| PlanExpand.ActionPanics | plan/src/lib.rs:103-131 | a call without params, or a built-in other than "pkg", stops the program |
| PlanExpand.ActionsNodes | plan/src/lib.rs:69-77 | the calls become one node each, in order, exactly when every call does; a failing call stops planning rather than returning an error |
| PlanExpand.PlanFuel | plan/src/lib.rs:49-78 | `PlanRecursive`: an outcome reached within some recursion depth is the same with any larger depth |
| PlanExpand.ContinueFuel | plan/src/lib.rs:69-77 | more depth never changes a reached outcome |
| PlanExpand.ActionFuel | plan/src/lib.rs:139-151 | more depth never changes a reached outcome |
| PlanExpand.ActionsFuel | plan/src/lib.rs:69-77 | more depth never changes a reached outcome |
| RemoteSync.SegmentsOfJoin | ssh/src/sync.rs:219 | names joined by slashes, after a leading slash or nothing, split back into those names |
| RemoteSync.SegmentsTrimEnd | ssh/src/sync.rs:258 | trimming trailing slashes keeps the directory names |
| RemoteSync.TrimEndSlashes | ssh/src/sync.rs:258 | the longest prefix not ending in a slash; only slashes are dropped |
| RemoteSync.RemoteJoin | ssh/src/sync.rs:253-278 | an empty relative path gives the base unchanged, anything else a non-empty path |
| RemoteSync.RemoteJoinSegments | ssh/src/sync.rs:253-278 | the result goes through the base's directories and then the relative path's normal names, dropping "." and ".."; it is absolute exactly when the base is, or is only slashes |
| RemoteSync.RemoteJoinVerbatim | vm/src/ssh/sync.rs:38-51 | an empty relative path gives the base unchanged |
| RemoteSync.RemoteJoinVerbatimSegments | vm/src/ssh/sync.rs:38-51 | every component of a relative path, "." and ".." included, becomes a segment after the base's |
| RemoteSync.RemoteJoinsDiffer | vm/src/ssh/sync.rs:38-51 | for "x/../y" the newer join gives base/x/y and the older base/x/../y |
| RemoteSync.MkdirPrefixes | ssh/src/sync.rs:214-226 | one directory per non-empty segment |
| RemoteSync.MkdirPrefixesJoin | ssh/src/sync.rs:214-226 | the i-th directory is the leading slash, if any, and the first i+1 segments joined by slashes |
| RemoteSync.MkdirPrefixesSpec | ssh/src/sync.rs:214-226 | each directory's segments are the first i+1 segments of the target: each extends the one before by one name |
| RemoteSync.TrimStart | ssh/src/sync.rs:209 | only leading whitespace is dropped, and all of it |
| RemoteSync.TrimEnd | ssh/src/sync.rs:209 | only trailing whitespace is dropped, and all of it |
| RemoteSync.MkdirTargets | ssh/src/sync.rs:208-226 | after trimming, "" or "." creates nothing; otherwise the directory prefixes of the trimmed path |
| RemoteSync.MkdirTargetsVerbatim | vm/src/ssh/sync.rs:54-67 | the path as given, untrimmed, is walked one directory per name, outermost first: the i-th is the leading slash, if any, and the first i+1 names joined by slashes |
| RemoteSync.RunSteps | ssh/src/sync.rs:219-249 | never reports more created directories than it visits |
| RemoteSync.RunStepsSpec | ssh/src/sync.rs:219-249 | succeeds exactly when every step does, then reports exactly the directories created; otherwise the first failing step's error, nothing after it tried |
| RemoteSync.RunStepsAllThere | vm/src/ssh/sync.rs:60-75 | when every directory is already there nothing is created and the walk succeeds |
| RemoteSync.ProbeStep | ssh/src/sync.rs:227-246 | creates exactly when the path does not exist and creation succeeds; leaves alone exactly when it exists and its metadata can be read |
| RemoteSync.Mkdirs | ssh/src/sync.rs:208-212 | a blank or "." directory creates nothing and succeeds |
| RemoteSync.MkdirsOk | ssh/src/sync.rs:208-250 | on success each directory on the way existed or was created, and exactly the missing ones were created |
| RemoteSync.AsciiLower | vm/src/ssh/sync.rs:33 | only A-Z change, each to its lower-case letter |
| RemoteSync.CreateStep | vm/src/ssh/sync.rs:68-72 | created exactly when creation succeeds; an error exactly when creation fails with a message not classified as already existing, and it is that message |
| RemoteSync.MkdirsVerbatim | vm/src/ssh/sync.rs:54-76 | succeeds exactly when each directory is created or reported as already existing; a failure is never an already-exists message |
| RemoteSync.NotExistClassified | vm/src/ssh/sync.rs:32-35 | a message saying "not exist" is taken for already-exists as written, and rejected by the correction |
| RemoteSync.AlreadyExistsMisclassifies | vm/src/ssh/sync.rs:32-35 | as written, a mkdir whose every creation fails with "does not exist" reports success having created nothing |
| RemoteSync.MkdirsReportsMissing | vm/src/ssh/sync.rs:54-76 | with the corrected classifier that walk fails at the first directory with that message |
| RemoteSync.AlreadyExistsCorrected | vm/src/ssh/sync.rs:32-35 | the correction accepts nothing the original rejects, and still accepts "already exists" without "not exist" |
| RemoteSync.AlreadyExistsExamples | vm/src/ssh/sync.rs:32-35 | the usual wordings "already exists" and "file exists" are accepted |
| RemoteSync.LastSlash | ssh/src/sync.rs:143 | none exactly when there is no slash; otherwise the position of a slash with none after it |
| RemoteSync.UploadParentSpec | ssh/src/sync.rs:143-148 | `UploadParent`: a parent is made exactly when a slash follows the first character; the path is then that parent, a slash and a slash-free name |
| SystemdEscape.TrimSlashes | avo-vm/src/utils.rs:80-83 | no slash remains at either end |
| SystemdEscape.EscapeByte | avo-vm/src/utils.rs:100-108 | each byte escapes to something non-empty and slash-free |
| SystemdEscape.EscapePath | avo-vm/src/utils.rs:79-108 | the name is non-empty and slash-free, and is "-" exactly for a path of slashes only |
| SystemdEscape.EscapePathRoundTrip | avo-vm/src/utils.rs:79-108 | the name reads back as the path with end slashes trimmed and runs collapsed |
| SystemdEscape.EscapePathInjective | avo-vm/src/utils.rs:79-108 | two paths get the same name exactly when they trim and collapse to the same bytes |
| SystemdEscape.CollapseNoRuns | avo-vm/src/utils.rs:85-93 | no two slashes in a row survive collapsing |
| SystemdEscape.EscapeExamples | avo-vm/src/utils.rs:79-108 | "/a//b/" is "a-b", "/" and "" are "-", a leading "." and a "-" are hex-escaped |
| SystemdEscape.Max | avo-vm/src/utils.rs:138-146 | the largest CID in use, and one of them |
| SystemdEscape.NextCid | avo-vm/src/utils.rs:138-146 | the first CID when none is in use |
| SystemdEscape.NextCidFresh | avo-vm/src/utils.rs:138-146 | short of wrap-around the new CID is above every one in use, unused, and one past the largest |
| SystemdEscape.NextCidOrderFree | avo-vm/src/utils.rs:138-146 | the order CIDs were found in makes no difference |
| ApplyView.EnsureIndex | apply-stdio/src/lib.rs:116-120 | the vector grows to cover the index with empty slots and never shrinks; old slots are kept |
| ApplyView.SetNode | apply-stdio/src/lib.rs:107-110 | the slot holds the node after growing, and every other slot is as before |
| ApplyView.SetNodeNone | apply-stdio/src/lib.rs:87-90 | the slot is emptied after growing, and every other slot is as before |
| ApplyView.SetLeafStarted | apply-stdio/src/lib.rs:78-85 | the slot holds a started leaf, and every other slot is as before |
| ApplyView.SetNodeView | apply-stdio/src/lib.rs:92-105 | only the slot's view changes: a leaf stays a leaf, a branch keeps its children, an empty slot becomes a leaf, every other slot is as before |
| ApplyView.GetNode | apply-stdio/src/lib.rs:112-114 | a node exactly for an index inside the vector whose slot is filled |
| ApplyView.InsertSubtreeAtCompleted | apply-stdio/src/lib.rs:35-76 | the subtree's preorder layout is written from the start index, the result is the next free position, and every other slot is as before |
| ApplyView.FromViewTreeCompleted | apply-stdio/src/lib.rs:29-33 | a flat tree of exactly the subtree's size holding its preorder layout from 0 |
| ApplyView.InsertSpec | apply-stdio/src/lib.rs:40-74 | the recursive helper writes the layout from its index and returns the position right after it |
| ApplyView.InsertAllSpec | apply-stdio/src/lib.rs:51-70 | children are written one after another, each recorded at the position it starts |
| ApplyView.ChildIndicesClosed | apply-stdio/src/lib.rs:51-70 | the first child sits right after its branch, and each later child after the whole subtrees before it |
| ApplyView.ReadBackFlat | apply-stdio/src/lib.rs:40-74 | a completed subtree written anywhere reads back as itself |
| ApplyView.InsertReadBack | apply-stdio/src/lib.rs:35-76 | inserting a completed subtree and reading it back from the same position gives the subtree |
| ApplyView.EnsureTree | apply-stdio/src/lib.rs:193-198 | an absent tree is created empty; a present one is kept |
| ApplyView.StartGrid | apply-stdio/src/lib.rs:254-270 | one row per epoch and one entry per operation, each labelled complete with no output and not complete |
| ApplyView.UpdateOperation | apply-stdio/src/lib.rs:271-300 | only the named operation changes, and nothing when it is outside the grid |
| ApplyView.UpdateFrames | apply-stdio/src/lib.rs:200-303 | `Update`: tree updates leave the operation grid alone, and operation updates leave every tree alone |
| ApplyView.OperationUpdateSpec | apply-stdio/src/lib.rs:271-300 | `Update`: an operation update changes at most the one operation it names; start clears the output and the flag, output is appended, complete sets the flag |
| ApplyView.StageNodeSpec | apply-stdio/src/lib.rs:210-251 | `Update`: a node update writes the completed subtree's layout from its index, creating the tree if absent; a started state node is a started leaf; a state completed with no value empties its slot |
| ApplyView.StartResets | apply-stdio/src/lib.rs:207-247 | `Update`: each stage's start resets its tree to empty and touches nothing else |
| ApplyView.StdoutStep | apply-stdio/src/lib.rs:280-286 | one stdout piece is appended to the operation's output |
| ApplyView.StdoutAccumulates | apply-stdio/src/lib.rs:280-286 | the stdout pieces of one operation accumulate as their concatenation, in order |
| ApplyView.StdoutUpdates | apply-stdio/src/lib.rs:280-286 | `Update`: one stdout update per piece, in order |
| TuiState.StageIndex | lusid/src/tui.rs:241-246 | a stage's position is below the stage count and is the first position holding that stage |
| TuiState.StageIndexRoundTrip | lusid/src/tui.rs:241-250 | `StageFromIndex` and `StageIndex`: position and stage are inverse to each other |
| TuiState.NavigateStageRelative | lusid/src/tui.rs:714-738 | moves to the nearest stage with data in the direction's sign, skipping those without; stays when there is none that way or the direction is zero |
| TuiState.EnsureVisibleRow | lusid/src/tui.rs:297-309 | with rows to show, the new offset shows the row, and an offset that already shows it is kept; a window of no rows never scrolls |
| TuiState.EnsureVisibleRowMinimal | lusid/src/tui.rs:442-454 | no offset that shows the row is closer to the old one |
| TuiState.Toggle | lusid/src/tui.rs:285-291 | the node's expansion flips and no other node's changes |
| TuiState.ToggleTwice | lusid/src/tui.rs:285-295 | toggling the same node twice changes nothing |
| TuiState.Rows | lusid/src/tui.rs:1359-1411 | on any slots (started, not-started or cleared ones included): the node itself first, at the given depth; a collapsed node shows alone; every later row is deeper and sits one level below an earlier expanded branch row whose node lists it as a child; each node shows at most once, only filled slots, every row newly visited |
| TuiState.RowsAll | lusid/src/tui.rs:1404-1408 | children's rows start with a child at exactly the given depth; every row is either a child at that depth or deeper under an earlier parent row, one level below it; each node at most once, only filled slots, none seen before |
| TuiState.BuildVisibleRows | lusid/src/tui.rs:1343-1357 | rows start at the root at depth 0, show only filled slots, and never repeat a node |
| TuiState.RowsOfFlat | lusid/src/tui.rs:1359-1411 | on a completed subtree's layout the rows are exactly the preorder walk that does not enter collapsed branches |
| TuiState.BuildVisibleRowsOfCompleted | lusid/src/tui.rs:1343-1357 | the display of a flat tree built from one completed subtree is the reference walk of that subtree |
| TuiState.SelectedRowIndex | lusid/src/tui.rs:1413-1416 | the first row showing the selected node, and none exactly when no row shows it |
| TuiState.VisibleRows | lusid/src/tui.rs:311-330 | with no rows nothing is selected and the list is at the top; a shown selection is kept; otherwise the first row is selected |
| TuiState.ClampRow | lusid/src/tui.rs:332-347 | the row `delta` away, clamped to the first and last rows |
| TuiState.MoveSelectionSpec | lusid/src/tui.rs:332-347 | `MoveSelection`: moving selects the row `delta` away from the selected one, clamped to the rows shown; with nothing shown nothing is selected |
| TuiState.ToggleSelectedBranch | lusid/src/tui.rs:349-361 | the selected row's node is toggled exactly when it is a branch; the selection is the repaired one |
| TuiState.EpochPairs | lusid/src/tui.rs:416-436 | one pair per operation of the epoch, in order |
| TuiState.PairsOrdered | lusid/src/tui.rs:416-436 | the enumerated positions are in strictly increasing epoch-then-operation order |
| TuiState.PairsBounds | lusid/src/tui.rs:416-436 | every enumerated position is in the grid |
| TuiState.PairsComplete | lusid/src/tui.rs:416-436 | every position of the grid is enumerated |
| TuiState.PairsCount | lusid/src/tui.rs:416-436 | there are exactly as many pairs as operations |
| TuiState.RebuildIndex | lusid/src/tui.rs:416-436 | the positions are re-enumerated; with none nothing is selected and the list is at the top; otherwise the selection is kept in range, clamped to the last position, the first when none |
| TuiState.MoveDown | lusid/src/tui.rs:456-466 | the positions are unchanged and a selection stays within them; with none nothing is selected |
| TuiState.MoveUp | lusid/src/tui.rs:468-478 | the positions are unchanged and a selection in range stays in range; with none nothing is selected |
| TuiState.MoveUpDownInverse | lusid/src/tui.rs:456-478 | down then up returns to a selection that was not the last, and up then down to one that was not the first |
| TuiState.MoveStopsAtEnds | lusid/src/tui.rs:456-478 | down from the last position and up from the first change nothing |
| TuiState.NewBuffer | lusid/src/tui.rs:1447-1459 | a new buffer is empty with the given capacity |
| TuiState.Push | lusid/src/tui.rs:1461-1466 | the capacity is kept, the buffer never exceeds it, and the pushed item is last |
| TuiState.PushIsLast | lusid/src/tui.rs:1461-1466 | one push keeps the last `cap` items |
| TuiState.PushAllKeepsLast | lusid/src/tui.rs:1461-1466 | a buffer holds the last `cap` items of everything pushed into it, oldest first |
| TuiState.BufferTail | lusid/src/tui.rs:1447-1466 | from a new buffer at most `cap` items are kept, and they are the last ones pushed, in order |
| PlanScope.Scoped | plan/src/tree.rs:33-48 | each id is put under the scope, in order |
| PlanScope.ScopedId | plan/src/tree.rs:29-32 | an id exactly when there was one, under the scope |
| PlanScope.MapPlanSubitems | plan/src/tree.rs:14-53 | a mapped item exactly for a node, with one subtree per expanded subtree |
| PlanScope.MapPlanSubitemsOrder | plan/src/tree.rs:14-53 | the mapped subtrees are the expanded subtrees each scoped on its own, in order |
| PlanScope.ScopeIds | plan/src/tree.rs:14-53 | the ids of a scoped tree are its ids each under the scope, in the same order |
| PlanScope.ScopeFlatten | plan/src/tree.rs:14-53 | scoping keeps the leaves the scheduler sees, in order with the same payloads, and puts every inherited before and after under the scope |
| PlanScope.ScopeCollected | plan/src/tree.rs:14-53 | each collected leaf keeps its payload with its references under the scope |
| PlanScope.ScopedUnique | plan/src/tree.rs:14-53 | ids are distinct under one scope exactly when they were distinct |
| PlanScope.ScopesDisjoint | plan/src/tree.rs:14-53 | ids from expansions under different scopes never meet |
| Strs.Split | system/src/os.rs:54 | at least one piece, and no piece contains the separator |
| Kahn.ScheduleFinal | operation/src/epoch.rs:218-241 | after the last wave nothing more is ready, and only real nodes were scheduled |

## Left out

- Concurrency and timing: the `tokio` select loops, join sets and cancellation tokens, and the concurrent join inside `Epochs::try_map_async`. `Epochs.TryEach` models the sequential, stop-at-first-error order only.
- I/O and process control: QEMU and virtiofsd launch, image download, cloud-init, SSH transport, SFTP calls, and the file, HTTP and store wrappers. Where the core depends on them, their answers are parameters: a `create` function for SFTP mkdir, a `Reader` for config files, a store reader and state probes.
- Rimu parsing, evaluation and the call of a plan's setup function: these are parameters. The serde conversions (`into_type`, to_rimu) are also left out; Rimu values are a small datatype with spans, and numbers are integers.
- Randomness: cuid2 scope ids, nanoid VM ids and random CIDs. A fresh id is a parameter.
- Rendering and presentation: terminal drawing, ANSI conversion, the `fingerprint` hash and the last-render key in lusid/src/tui.rs, the view types, the tree `Render` impl and apply-progress. View labels are an abstract `ViewNode` value.
- CLI and top-level orchestration (lusid/src/lib.rs, ludis/src/lib.rs, the binaries and examples), and the environment and path tables (env, ctx, vm paths). These are glue over external calls and constant paths.
- Files that do not compile as written: avo/src/lib.rs, operation/src/operations/file.rs (its merge names variants the type lacks), operation/src/lib.rs, stack/src/parser.rs, stack/src/params.rs, causality/src/tree.rs and flow/src/lib.rs. apply-stdio/src/lib.rs and lusid/src/tui.rs do not compile either, but they are modelled: the ApplyView and TuiState lines below say how the model reads their mismatches.
- Identity deduplication between resources, kept Noop nodes, probe-error recovery, bounded worker pools and "let in-flight operations finish": no code implements these, so no contract claims them.
- ApplyView: apply-stdio/src/lib.rs's `FlatViewTree` has no `root_index` or `get`, although lusid/src/tui.rs calls them. The model takes the root to be index 0 and `get` to be `GetNode`.
- ApplyView.Update: the `ResourcesNode` arm of `AppUpdate` declares a field named `update` but its body reads `value`. The model follows the body.
- TuiState.NavigateStageRelative: lusid/src/tui.rs treats `AppView` as a struct with per-stage accessors, but it is an enum in apply-stdio. Which stages are available is a parameter.
- TuiState.EnsureVisibleRow: `TreeState` and `OperationsApplyState` in lusid/src/tui.rs each define `ensure_visible_row` with the same scrolling rule. One function models both, over the list offset alone.
- Kahn.Layer: each wave is returned in queue order, but the contract states only its set of nodes, without repeats. The order inside a wave (index order for the first, then the order in which in-degrees reach zero, in operation/src/epoch.rs:218-241) is not stated. Causal.LeafEpochs, OperationEpoch.TreeToEpochs and StackOperation.IntoEpochs inherit this.
- TuiState.StageFromIndex: requires a position below the stage count. The source indexes `PipelineStage::ALL` and would panic past it; every caller passes a position in range.
- TuiState: `usize` overflow of `list_offset + height` is not modelled, and the `i32` delta of `move_selection` is an unbounded integer.
- TuiState.Push: the source's `CircularBuffer` panics when a zero-capacity buffer is full. The model instead requires a positive capacity whenever the buffer is full.
- SystemdEscape.NextCidFresh: freshness is proved only while the largest CID in use is below 2^32 - 1. At that value the source's `u32` `+ 1` panics in a debug build and wraps to 0 in a release build. `NextCid` models the wrap.
- ArenaTree.ToElements: rebuilding nested elements requires every child to sit after its parent. A failed `add_children` leaves orphan nodes that may break this, and the source then indexes into them unchecked.
- ArenaTree.BuildShape: states its shape guarantee only for trees whose children sit after their parents, for the reason above.
- PlanExpand: the `expect` calls and the `panic!` in plan/src/lib.rs become an outcome `Panicked` with the reason, not a crash. A Git plan source is `todo!` in the source, so it panics in the model too.
- PlanExpand.PlanFuel: the program follows nested user modules without a depth bound. The model bounds the depth with a `fuel` parameter, and `OutOfFuel` is an outcome of the model only. The fuel lemmas prove that any reached outcome does not depend on the bound.
- LudisConfig: the hostname, the environment variable and the file-existence probes used when looking up the local machine and discovering the machines file are parameters.
- PlanCore: reading validated values into package parameters (serde `into_type`) is a partial function of the model, `PackageOps.ParamsFromValues`.

## Findings

| source | as written | input that shows it | evidently intended | confidence | as-written member | corrected member |
|---|---|---|---|---|---|---|
| ludis/src/config.rs:63-83 | for a directory path, `ludis.toml` is read from inside the directory, but each machine's relative plan is resolved against the parent of the path given, that is, against the directory's parent | the directory `/srv/cfg` holding `ludis.toml` with a plan `site.rimu` resolves to `/srv/site.rimu` | relative plans resolve beside the file read: `/srv/cfg/site.rimu` | not executed | LudisConfig.LoadAsWrittenMisplacesPlan | LudisConfig.LoadResolvesBesideFile |
| vm/src/ssh/sync.rs:32-35 | an SFTP error counts as "already exists" when its message contains `exist`, and that also matches "does not exist" | a mkdir whose every creation fails with "does not exist" (a missing parent) reports success having created nothing | a message counts only when it mentions existence without saying "not exist" | not executed | RemoteSync.AlreadyExistsMisclassifies | RemoteSync.MkdirsReportsMissing |
