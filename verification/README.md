# BitBake core and the vtx frame FIFO: a verified model

BitBake keeps its configuration in a layered datastore, resolves targets to recipes, parses recipes in parallel
processes, and gives every BitBake task a hash. `apps/vtx.c` moves camera buffers between two threads. This project
models the code behind those jobs in Dafny and proves what each of them keeps.

- `DataSmart` (with `DataStore`, `Expansion`, `CachedReading`, `WriteEffects`, `ReadBack`, `ValueLaws`, `OverrideIndex`,
  `OverrideResolution`, `JoinedOverrides`, `RemovalLeak`): a heap model of the datastore. Every write is proved equal to
  a function on plain store values, every cached read to a read without cache, and a write to a copy touches nothing
  that existed before. What each write leaves, what a read gives after it, the override loop and the override index are
  studied on values.
- `TaskData`: the resolver with its failure cascade, over any finite set of recipes and any dependencies between them,
  cyclic ones included.
- `ParseProtocol`, `ParseProgress`: workers, pipe and generator of the parallel parser, under every interleaving.
- `DependencyClosure`, `HashText`, `Signatures`, `Sorting`: what a variable depends on, base hashes, hashes of BitBake
  tasks, and the second computation of both from the data of a signature file. The hash function is a parameter.
- `ChecksumDiff`: the difference between two lists of file checksums.
- `StreamCodec`: the deduplicating stream between parsing processes and the server.
- `FrameFifo`: the ring of `apps/vtx.c` with its two threads, the camera and the encoder; and the USB frame writer.
- `TaskChains`, `Providers`, `RuntimeProviders`, `LayerPriorities`, `FileNames`, `FifoMessages`, `CowHistory`: task
  chains, provider choice, layer priorities, virtual file names, the message pipe of shell functions, and the
  copy-on-write variable history.

Dictionaries that the code iterates over are enumerated in an arbitrary order, so results hold for every order. An
exception is a result value or a Boolean result. Texts in the datastore are lists of literal parts and `${NAME}`
references; `${NAME}` of an undefined variable stays as it is.

Where the code does not keep what its comments, tests or neighbours suggest, the model follows the code, a lemma gives
an input, and another gives the exact condition where there is one:

- OVERRIDES that lists a name twice: the chosen override is the one whose *first* occurrence is furthest right
  (input `RepeatedNameLoses`, condition `RightmostExact`).
- Stripping `:o` from a joined override by text also cuts inside a longer name that starts with `o`, and an active
  override can be lost (input `ExtendedNameIsLost`, conditions `StripExact` for one strip and `FoundExact` for an
  OVERRIDES; `CleanComplete` says which candidates are safe in any).
- `_setvar_update_overrides` on a name without colon enters a false index entry that `delVar` never removes
  (input `LowerCaseNameLies`, conditions `EnterTruthful` and `ForgottenExact`).
- The removal set of a cached parse is shared by the variables that take their value from it, so one strikes the words
  of the other (a run of the reader: `LeakRun`; what it answers for any two: `ReadBoth`; condition `LeakExact`).
- A target whose first new candidate names a failed target fails with it, although other candidates stand, and takes the
  recipes that need it along (`AddEligible`); which recipes nothing can take along `AddUnresolved` says.
- `handle_remove` loses the references of all `:remove` texts but the first, and all functions they call
  (input `OverlookedShown`, condition `BuildDependencies`).
- `calc_taskhash` looks for `nostamp:` anywhere in a taint, `get_taskhash` only at its start (input `TaintShown`,
  condition `TaintExact`).
- A signature file keeps one hash for each dependency name, so dependencies of one name get one hash (input
  `SharedNameDiffers`, condition `NamesTellExact`).
- A reset of the reading side of the stream loses records, but never yields a wrong one (input `ReaderResetLoses`,
  condition `LostExact`).
- `filterProvidersRunTime` removes from the list it walks over and passes one recipe over, so a conflict can go
  unreported (input `ConflictMissed`, condition `MissedExact`).
- `tasksbetween` returns nothing for a recipe whose only task is the end (input `SingleTaskIsNothing`, condition
  `TasksBetween`).
- The text behind a base hash has no separators. Over one list of dependencies different values can give one text
  (input `ValueNotTold`, condition `TextTellsExact`), and which list it was the text never tells (input
  `TextIsAmbiguous`, for any two lists `NamesNotTold`).

## Model

| member | source | states |
|---|---|---|
| `OverrideResolution.Visit` | bitbake/lib/bb/data_smart.py:814-823 | one visit of an active key never lengthens the keys, and shortens them whenever it sets `mod`: the measure of the loop |
| `OverrideResolution.ResolveLoop` | bitbake/lib/bb/data_smart.py:806-823 | the `while mod` loop with its snapshots terminates and computes `Resolve`, for any candidates and any OVERRIDES |
| `OverrideResolution.SingleNames` | bitbake/lib/bb/data_smart.py:806-823 | for single-name overrides listed in OVERRIDES the loop empties `active`, finds a value iff there was a candidate, and takes the candidate whose first occurrence in OVERRIDES is furthest right |
| `OverrideResolution.FirstIndexUnique` | bitbake/lib/bb/data_smart.py:812 | without repeated names "first occurrence furthest right" is "rightmost" |
| `OverrideResolution.RightmostExact` | bitbake/lib/bb/data_smart.py:806-823 | for an OVERRIDES of single names the candidate furthest to the right always wins iff the names come in the same order by first and by last occurrence |
| `OverrideResolution.RepeatedNameLoses` | bitbake/lib/bb/data_smart.py:806-823 | an instance: with OVERRIDES `a:b:a` the rightmost entry `a` loses to `b` |
| `OverrideResolution.EndsJoin` | bitbake/lib/bb/data_smart.py:814 | the suffix test on a joined override holds exactly when it has several components and ends with that one |
| `OverrideResolution.StripExact` | bitbake/lib/bb/data_smart.py:815-818 | the textual replace removes components, and nothing else, iff no later component properly extends the stripped name |
| `OverrideResolution.StruckLength` | bitbake/lib/bb/data_smart.py:817 | where it does more, the result is strictly shorter than the right one |
| `OverrideResolution.CleanComplete` | bitbake/lib/bb/data_smart.py:806-823 | in any OVERRIDES of single names the loop consumes every candidate that joins no two names of which one starts the other, and finds one of them iff there was any |
| `OverrideResolution.KeyIsLost` | bitbake/lib/bb/data_smart.py:806-823 | when a name `o` starts another name `p`, an active key `c:p:o` is never chosen, unless `c` with the rest of `p` happens to be an override |
| `OverrideResolution.FoundExact` | bitbake/lib/bb/data_smart.py:806-823 | active joined overrides always lead to a match iff no name in OVERRIDES is a proper prefix of another |
| `OverrideResolution.StripMangles` | bitbake/lib/bb/data_smart.py:815-818 | `x:ab:a` stripped of `a` becomes `xb` |
| `OverrideResolution.ExtendedNameIsLost` | bitbake/lib/bb/data_smart.py:806-823 | an instance: with OVERRIDES `a:ab:x` the active candidate `x:ab:a` is never chosen |
| `OverrideResolution.JoinInjective` | bitbake/lib/bb/data_smart.py:801 | a joined override splits at its colons in one way only |
| `JoinedOverrides.FateTells` | bitbake/lib/bb/data_smart.py:806-823 | the moments at which the loop strips and finally claims a joined override belong to that override alone |
| `JoinedOverrides.LastWins` | bitbake/lib/bb/data_smart.py:806-823 | of candidates none of which joins a name with one that starts it, the one that the loop claims last is chosen; of those that have become one key, the one that did so last |
| `JoinedOverrides.LastExists` | bitbake/lib/bb/data_smart.py:806-823 | among any candidates there is such a one |
| `JoinedOverrides.SingleFate` | bitbake/lib/bb/data_smart.py:812-823 | a single name is claimed in the first pass, where it first stands in OVERRIDES |
| `OverrideIndex.WalkCuts` | bitbake/lib/bb/data_smart.py:643-659 | for a name with a colon every visited pair cuts the name at one of its colons |
| `OverrideIndex.EnterExact` | bitbake/lib/bb/data_smart.py:646-652 | entering a name adds exactly its walk to the index: an entry is there afterwards iff it was there or the walk visits it |
| `OverrideIndex.WithdrawExact` | bitbake/lib/bb/data_smart.py:728-741 | withdrawing takes exactly the walk out of a well-formed index |
| `OverrideIndex.EnterTruthful` | bitbake/lib/bb/data_smart.py:643-659 | entering a name into a truthful index (every entry `[r, o]` under `v` has `r == v:o`) keeps it truthful iff the name has a colon or does not start like an override |
| `OverrideIndex.ForgetExact` | bitbake/lib/bb/data_smart.py:723-741 | deleting a variable drops its own list and, if its name has a colon, exactly the entries that name it |
| `OverrideIndex.ForgottenExact` | bitbake/lib/bb/data_smart.py:723-741 | no entry anywhere names a deleted variable iff its name has a colon or its false entry is not there |
| `OverrideIndex.LowerCaseNameLies` | bitbake/lib/bb/data_smart.py:588 | `do_install:append` files `do_install` under `do_instal`, and deleting it leaves the entry there |
| `DataStore.ApplyIndexed` | bitbake/lib/bb/data_smart.py:544-742 | every write keeps the index well formed without duplicates, and a truthful index truthful iff the write is not an operation on a colon-less name that looks like an override |
| `DataStore.RunIndexed` | bitbake/lib/bb/data_smart.py:544-742 | over any run the index stays well formed, and it is truthful throughout iff no write of the run is such an operation |
| `WriteEffects.WalkVisits` | bitbake/lib/bb/data_smart.py:643-659 | `v:o` is entered for `v` iff `o` and every shorter ending of the name look like overrides, the empty `v` only at the last colon |
| `WriteEffects.AppliesWhen` | bitbake/lib/bb/data_smart.py:836-876 | a condition `o1:o2` on an operation holds iff each name is in OVERRIDES, no condition always |
| `WriteEffects.ActiveWhen` | bitbake/lib/bb/data_smart.py:799-804 | an indexed override is active iff each name it joins is in OVERRIDES |
| `WriteEffects.AssignData` | bitbake/lib/bb/data_smart.py:594-622 | an ordinary assignment deletes exactly the variables that override the name and are active, drops its operations, sets its value, and leaves every other flag and variable alone |
| `WriteEffects.AssignIndex` | bitbake/lib/bb/data_smart.py:603-619 | afterwards nothing overrides the variable or a deleted one, entries that name a deleted one with a colon are gone, and its own name is entered |
| `WriteEffects.ParsedAssign` | bitbake/lib/bb/data_smart.py:594-622 | while parsing only the variable itself changes, and its operations stay |
| `WriteEffects.OperationData` | bitbake/lib/bb/data_smart.py:569-592 | an operation joins the end of its own list, the others and the value stay, and the name is entered with or without colon |
| `WriteEffects.FlagData` | bitbake/lib/bb/data_smart.py:744-773 | one flag changes and nothing else; the name is entered only for a default of a name with a colon |
| `WriteEffects.FlagDropped` | bitbake/lib/bb/data_smart.py:915-932 | a flag that is set goes with its weak default; otherwise nothing changes |
| `WriteEffects.DeleteData` | bitbake/lib/bb/data_smart.py:717-722 | nothing is left of the deleted variable, and everything of the others |
| `Expansion.WinnerOfSingles` | bitbake/lib/bb/data_smart.py:791-825 | in any store a variable whose overrides are single names takes its value from one iff one is active, and then from what the last index entry for it names, where it is the active override whose first occurrence in OVERRIDES is furthest right |
| `Expansion.WinnerOfJoined` | bitbake/lib/bb/data_smart.py:791-825 | for overrides of any depth, when no active one joins names that start one another, a value is taken from an override iff one is active |
| `Expansion.WinnerIsLast` | bitbake/lib/bb/data_smart.py:791-825 | and then from what the last index entry names for the active override that the loop claims last |
| `Expansion.CarrierIs` | bitbake/lib/bb/data_smart.py:643-659 | in a well-formed index the entry of `v` for `o` names `v:o`, or it is the false entry of an operation on the colon-less name `o`, of which `v` lacks the last character |
| `Expansion.CarrierTrue` | bitbake/lib/bb/data_smart.py:643-659 | and for a variable with true entries it names `v:o`, whatever the rest of the index says |
| `Expansion.WinnerBelow` | bitbake/lib/bb/data_smart.py:823-825 | the overriding variable has a lower reference rank, so reading through overrides ends |
| `Expansion.StrikeMore` | bitbake/lib/bb/data_smart.py:882-895 | striking more words changes a text iff one of them was still in it |
| `Expansion.StrikeNothing` | bitbake/lib/bb/data_smart.py:883-893 | splitting at white space and joining again gives the text back |
| `ValueLaws.RawValue` | bitbake/lib/bb/data_smart.py:819-864 | before expansion a variable reads what its winning override reads, if that is defined, else its own value, else `_defaultval`; around it stand the prepends that apply, last first, and the appends that apply, in order |
| `ValueLaws.OverrideReads` | bitbake/lib/bb/data_smart.py:821-833 | without such operations a variable reads what its override reads, whatever its own value |
| `ValueLaws.AssignedOverrideReads` | bitbake/lib/bb/data_smart.py:594-622 | an assignment to `v:o` is what `v` reads next, if `o` comes last among the active overrides of `v` |
| `ValueLaws.TwoAssignments` | bitbake/lib/bb/data_smart.py:594-622 | in any store: `FOO = a`, then `FOO:o = b`: FOO reads b iff o is in OVERRIDES, and else a |
| `ValueLaws.ReadTwo` | bitbake/lib/bb/data_smart.py:661-662 | the reader itself gives that answer on a new datastore |
| `ValueLaws.AppendedOverrideReads` | bitbake/lib/bb/data_smart.py:569-592 | a lone append to `v:o` is found by a read of `v` |
| `ValueLaws.ExpandConcat` | bitbake/lib/bb/data_smart.py:453-485 | expansion goes part by part |
| `ValueLaws.ExpandPart` | bitbake/lib/bb/data_smart.py:109-138 | a literal part stays, a reference gives what its variable reads, and one to an undefined variable stays as written |
| `ValueLaws.StruckValue` | bitbake/lib/bb/data_smart.py:866-893 | the removals that are handed on are those, own or handed down, of which a word was there |
| `ReadBack.AssignReads` | bitbake/lib/bb/data_smart.py:594-622 | after an ordinary assignment a read gives the assigned text, expanded, whatever was appended, prepended, removed or overridden before |
| `ReadBack.DeleteReads` | bitbake/lib/bb/data_smart.py:717-742 | a deleted variable reads as undefined even if overrides of it are still set |
| `ReadBack.OperationReads` | bitbake/lib/bb/data_smart.py:569-592 | an append or prepend that applies puts its text at the end or front of the unexpanded value, through all earlier operations; one that does not apply changes nothing; the choice of the override stays |
| `ReadBack.StrikeSplits` | bitbake/lib/bb/data_smart.py:882-895 | splitting a struck text gives the words of the text without the struck ones, in order: no other word is cut or joined |
| `ReadBack.RemovalReads` | bitbake/lib/bb/data_smart.py:866-895 | the words of a value are those of its expanded text less the words of all removals that apply, those handed down by the override included |
| `RemovalLeak.LeakExact` | bitbake/lib/bb/data_smart.py:825-876 | when u, which takes its value from the same override, was read before, reading w is still right iff nothing u left in the shared set strikes a word that w does not strike itself |
| `RemovalLeak.NoLeak` | bitbake/lib/bb/data_smart.py:825-876 | nothing leaks from a variable without removals, or through an override without a removal set |
| `RemovalLeak.ReadBoth` | bitbake/lib/bb/data_smart.py:775-897 | the reader itself: from an empty cache it answers for u what is right and then for w what `ReadAfter` says, the value that `LeakExact` is about |
| `RemovalLeak.SetupLeaks` | bitbake/lib/bb/data_smart.py:544-622 | three writes that lead to a store that leaks: `F:a:b = "x y"`, `F:a:b:remove = "y"`, `F:remove = "x"` |
| `RemovalLeak.LeakShown` | bitbake/lib/bb/data_smart.py:825-829 | there `F:a` should read `x`, and nothing at all is left of it once `F` has been read |
| `RemovalLeak.LeakRun` | bitbake/lib/bb/data_smart.py:775-897 | the methods of the model do that: written and read anew, `F:a` gives `x` alone and only white space after `F` |
| `Expansion.SinglesSeparate` | bitbake/lib/bb/data_smart.py:825-829 | with single-name overrides no two variables take their value from the same one, whatever the index says |
| `Expansion.RunSeparate` | bitbake/lib/bb/data_smart.py:544-742 | that stays so over every run of writes to names with at most one override, operations on any name included |
| `DataSmart.Dict.Write` | bitbake/lib/bb/data_smart.py:622 | an in-place change of a flag dictionary changes the flattened view of that variable only |
| `DataSmart.Dict.Install` | bitbake/lib/bb/data_smart.py:530-539 | a new entry at the top level shadows the chain for that variable only |
| `DataSmart.DataSmart.FindVar` | bitbake/lib/bb/data_smart.py:519-528 | the walk up the chain finds what the flattened store has, tombstones included, or nothing iff it has nothing |
| `DataSmart.DataSmart.MakeShadowCopy` | bitbake/lib/bb/data_smart.py:530-539 | the variable has its own entry afterwards, shows what it showed, and nothing outside this store has changed |
| `DataSmart.DataSmart.EnterIndex` | bitbake/lib/bb/data_smart.py:643-659 | the loop enters the walk of the name, replacing lists so that lists shared with copies keep their contents |
| `DataSmart.DataSmart.WithdrawIndex` | bitbake/lib/bb/data_smart.py:726-741 | the loop withdraws the walk of the name, again without changing a shared list |
| `DataSmart.DataSmart.DelVar` | bitbake/lib/bb/data_smart.py:717-742 | leaves an empty cache and exactly the store `DataStore.DelVar` gives: a tombstone, no index list, the walk withdrawn |
| `DataSmart.DataSmart.SetVar` | bitbake/lib/bb/data_smart.py:594-622 | leaves exactly the store `DataStore.SetVar` gives: operations and active overriding variables dropped unless parsing, then the index entered and the value stored |
| `DataSmart.DataSmart.SetOp` | bitbake/lib/bb/data_smart.py:569-592 | leaves exactly the store with the operation appended to its list and the base name entered into the index |
| `DataSmart.DataSmart.SetFlag` | bitbake/lib/bb/data_smart.py:744-773 | leaves exactly the store with the flag set, and the index entered for a default of a name with a colon |
| `DataSmart.DataSmart.DelFlag` | bitbake/lib/bb/data_smart.py:915-932 | leaves exactly the store without the flag and its default, whatever level they were at; a variable that shows nothing stays as it is |
| `DataSmart.DataSmart.Run` | bitbake/lib/bb/data_smart.py:544-932 | any run of writes leaves the store the run of the value functions gives, and changes nothing outside this datastore's own level |
| `DataSmart.WriteToCopy` | bitbake/lib/bb/data_smart.py:1002-1023 | any run of writes to a copy changes nothing that existed before, and the copy equals the same run on a flat store taken when it was made |
| `DataSmart.DataSmart.Copy` | bitbake/lib/bb/data_smart.py:1002-1023 | a copy shares the chain and every index list and shows what the original shows |
| `CachedReading.EvalIn` | bitbake/lib/bb/data_smart.py:775-876 | reading a variable of a set of names closed under what they lead to refers to names of the set only |
| `CachedReading.HeldExact` | bitbake/lib/bb/data_smart.py:825-876 | for a variable in reach the shared removal set, together with its own removals, is exactly what struck the override and its own removals |
| `CachedReading.ParsesFits` | bitbake/lib/bb/data_smart.py:831-897 | so what is parsed with the shared set is what is read from scratch, and has a removal set iff it should |
| `DataSmart.DataSmart.FindWinner` | bitbake/lib/bb/data_smart.py:791-823 | the loops over the index entries and OVERRIDES give the winner of the value model |
| `DataSmart.DataSmart.ExpandWithRefs` | bitbake/lib/bb/data_smart.py:453-485 | expansion through the cache gives the expansion computed from scratch, and the cache stays coherent |
| `DataSmart.DataSmart.AddOwnRemoves` | bitbake/lib/bb/data_smart.py:866-876 | the removals of the variable join those held in the shared set, which afterwards is exactly the union in the cached parse too; what it held is what struck the override and what earlier readers added, and every cached parse still fits the store |
| `DataSmart.DataSmart.Parse` | bitbake/lib/bb/data_smart.py:787-897 | the parse of a variable whose override may have other readers: value and removals are those of the text struck with what the shared set holds and its own removals, which it leaves in the set |
| `DataSmart.DataSmart.StrikeWords` | bitbake/lib/bb/data_smart.py:878-895 | the loop over the words keeps exactly those no removal expands to, and records exactly the removals that struck |
| `DataSmart.DataSmart.GetVar` | bitbake/lib/bb/data_smart.py:661-662 | a cached `getVar` answers what a reader with an empty cache computes, and leaves store and coherence as they were, as long as no removal set is shared among the names read |
| `DataSmart.DataSmart.GetFlag` | bitbake/lib/bb/data_smart.py:775-853 | the same for flags other than the value |
| `DataSmart.DataSmart.Session` | bitbake/lib/bb/data_smart.py:544-932 | over any interleaving of writes and reads every answer equals the answer of a datastore without cache, as long as at each read no removal set is shared among the names read |
| `DataSmart.FlatAllowed` | bitbake/lib/bb/data_smart.py:544-932 | a session that only writes names with at most one override meets what this needs, if no read meets a reference cycle |
| `DataSmart.FlatSession` | bitbake/lib/bb/data_smart.py:544-932 | so a new datastore answers any such session as one without cache does |
| `Common.RemoveDistinct` | bitbake/lib/bb/taskdata.py:451 | removing a provider from a list without repetitions takes it out and nothing else |
| `TaskData.TaskData.FailFn` | bitbake/lib/bb/taskdata.py:438-460 | the mutually recursive cascade terminates on any dependencies; afterwards no failed recipe is a provider, recipes needing a failed target have failed, emptied targets are recorded, and nothing outside any closed set has failed |
| `TaskData.TaskData.RemoveTarget` | bitbake/lib/bb/taskdata.py:462-505 | the target is failed and every recipe that depends on it, by its own list or by one of its tasks, has failed |
| `TaskData.TaskData.CheckDeps` | bitbake/lib/bb/taskdata.py:157-166 | registers the dependencies of a new recipe; it fails iff one of them is already a failed target |
| `TaskData.TaskData.AddTasks` | bitbake/lib/bb/taskdata.py:67-166 | a recipe is added once, with its tasks and dependencies; it fails iff one of its DEPENDS or RDEPENDS is a failed target, and otherwise nothing fails |
| `TaskData.EntriesName` | bitbake/lib/bb/taskdata.py:116-138 | the recorded task entries name exactly the targets that the tasks of the recipe name |
| `TaskData.TaskData.AddEligible` | bitbake/lib/bb/taskdata.py:378-383 | every eligible recipe is listed unless it has failed by then; if the first is new and names a failed target, the target fails and all recipes that need it, although the others follow |
| `TaskData.TaskData.AddProviderInternal` | bitbake/lib/bb/taskdata.py:337-386 | raises NoProvider iff the target is not ignored and is unknown, or has neither a provider nor a candidate that has not failed, and then nothing has changed; otherwise every candidate is listed or has failed |
| `TaskData.TaskData.AddRProvider` | bitbake/lib/bb/taskdata.py:388-436 | raises iff the runtime target is not ignored, has no provider, and has no candidate left or a conflict of preferences; otherwise every candidate is listed or has failed |
| `TaskData.TaskData.ResolveOne` | bitbake/lib/bb/taskdata.py:514-528 | the turn of an unresolved target: it gets its candidates if one has not failed and no conflict is in the way, and is given up if not |
| `TaskData.TaskData.ResolvePass` | bitbake/lib/bb/taskdata.py:512-527 | a pass that resolves something shrinks the set of open targets; one that resolves nothing leaves no target open; every target it looked at has been provided, or has no candidate left or a conflict |
| `TaskData.SparedAfter` | bitbake/lib/bb/taskdata.py:438-505 | recipes that back each other are not reached by what fails outside them |
| `TaskData.TaskData.AddUnresolved` | bitbake/lib/bb/taskdata.py:507-531 | the worklist terminates; then every target is ignored, failed or provided; a known target that had not failed before has been provided at some point, unless no candidate is left or they conflict; recipes do not fail if all they depend on, task by task too, is ignored or has one of them as provider or as first candidate left; and the dependencies of every standing recipe are provided by standing recipes offered for them |
| `TaskData.TaskData.InsideIsSpared` | bitbake/lib/bb/taskdata.py:507-531 | a plain case: none fails of recipes whose dependencies are ignored, or have candidates without conflict, all among them |
| `TaskData.TaskData.TaskTargetsSeen` | bitbake/lib/bb/taskdata.py:127-130 | what tasks of an added recipe name is resolved as well |
| `TaskData.TaskData.AddProvider` | bitbake/lib/bb/taskdata.py:327-335 | a requested target is ignored, or is provided at some point iff it has a provider or a candidate that has not failed, and fails if not |
| `TaskData.TaskData.DoneIsBuildable` | bitbake/lib/bb/taskdata.py:507-531 | with every target settled, each dependency of a standing recipe has providers, all standing and added |
| `ParseProtocol.StepInv` | bitbake/lib/bb/cooker.py:2089-2119 | every step of a worker, the pipe, a kill or the generator keeps the account of jobs and the states that go with it |
| `ParseProtocol.EachJobOnce` | bitbake/lib/bb/cooker.py:2096-2115 | in every run each job handed out is in exactly one place: with one worker, in the pipe, consumed, or lost with a worker |
| `ParseProtocol.Pigeonhole` | bitbake/lib/bb/cooker.py:2311 | distinct results below a number are all of them as soon as there are that many: counting results is enough |
| `ParseProtocol.QuietEndIsComplete` | bitbake/lib/bb/cooker.py:2303-2324 | the generator ends without error only when every recipe was parsed and each result consumed exactly once |
| `ParseProtocol.ErrorIsReal` | bitbake/lib/bb/cooker.py:2323-2324 | ParseError is raised only when recipes are missing that can no longer arrive, and, unless there were no workers, one was killed or broke off |
| `ParseProtocol.StrandedRaises` | bitbake/lib/bb/cooker.py:2303-2324 | with all workers dead, the pipe empty, a result missing and the generator in its loop, every run is at most a computed number of steps long, can go on until then, and has raised exactly at that number |
| `ParseProtocol.MissingWorkRaises` | bitbake/lib/bb/cooker.py:2303-2324 | in any run, once all workers are dead and the pipe is empty with a result missing, every continuation ends in ParseError, within a number of steps linear in the number of workers |
| `ParseProtocol.NoWorkersRaise` | bitbake/lib/bb/cooker.py:2184-2185 | with a thread count of zero and something to parse every run raises ParseError with its sixth step, although no worker died |
| `ParseProtocol.KilledRunRaises` | bitbake/lib/bb/cooker.py:2303-2324 | such runs exist for any number of workers: killed before anything is parsed |
| `ParseProgress.AlwaysCanFinish` | bitbake/lib/bb/cooker.py:2089-2324 | with a worker, every run without interrupts, kills and failing recipes can be continued until the generator ends with every result consumed once |
| `DependencyClosure.HandleRemove` | bitbake/lib/bb/data.py:283-290 | of all `:remove` texts only the references of the first reach the caller's set |
| `DependencyClosure.BuildDependencies` | bitbake/lib/bb/data.py:293-372 | a name is a dependency iff it is not ignored nor, for variables, excluded, and is referred to, or called and a variable, or exported to shell functions, run before or after or named in vardeps, a flag that counts, or a reference of the first `:remove` text; that is what should be there less what later `:remove` texts alone bring |
| `DependencyClosure.OverlookedShown` | bitbake/lib/bb/data.py:283-290 | an instance with two `:remove` texts: the reference of the second and the function the first calls are missing |
| `DependencyClosure.ExploreTask` | bitbake/lib/bb/data.py:393-404 | the loop terminates on cyclic graphs and builds exactly the task's closure beside what the shared memo already holds |
| `DependencyClosure.GenerateDependencies` | bitbake/lib/bb/data.py:388-406 | for any list of tasks the memo ends up with exactly the tasks and what they reach, each with its own dependencies and value |
| `DependencyClosure.PartReaches` | bitbake/lib/bb/data.py:388-439 | a memo closed under dependencies reaches from its keys what the whole recipe does |
| `DependencyClosure.GenerateDependencyHash` | bitbake/lib/bb/data.py:408-441 | `taskdeps` of each task is exactly what is reachable from it and its base hash is that of its value and its sorted closure |
| `DependencyClosure.BuildData` | bitbake/lib/bb/siggen.py:254-273 | both passes together: all lookups defined, `taskdeps` independent of the other tasks, no ignored variable in it |
| `DependencyClosure.HashFollowsClosure` | bitbake/lib/bb/data.py:421-439 | recipes that agree on what a task reaches give it the same dependencies and the same hashed text |
| `HashText.TextTellsExact` | bitbake/lib/bb/data.py:412-439 | the hashed text tells the values of the task and its dependencies apart iff the task depends on nothing, or on itself alone |
| `HashText.LengthsTell` | bitbake/lib/bb/data.py:412-439 | texts with values of the same lengths are equal iff the values are |
| `HashText.NamesOnly` | bitbake/lib/bb/data.py:412-438 | variables without a value add their names alone |
| `HashText.ValueNotTold` | bitbake/lib/bb/data.py:412-439 | an instance over one list: the value `A` and an empty dependency `A`, or no value and `A` with the value `A` |
| `HashText.NamesNotTold` | bitbake/lib/bb/data.py:412-439 | for any two lists of dependencies there are values that give both the same text |
| `HashText.TextIsAmbiguous` | bitbake/lib/bb/data.py:431-438 | an instance: `A=BC` and `AB=C` |
| `Sorting.StrLinear` | bitbake/lib/bb/data.py:431 | code point order of strings is linear |
| `Sorting.StrLeFront` | bitbake/lib/bb/data.py:431 | a common beginning does not matter |
| `Sorting.StrLeWhen` | bitbake/lib/bb/data.py:431 | the first character that differs decides |
| `Sorting.PairLeWhen` | bitbake/lib/bb/siggen.py:390 | pairs are ordered by name, and by identifier where the names agree |
| `Sorting.PairLinear` | bitbake/lib/bb/siggen.py:390 | tuple order of name and identifier is linear |
| `Sorting.SortedUnique` | bitbake/lib/bb/siggen.py:390 | two sorted lists of the same elements are equal |
| `Sorting.SortOrderFree` | bitbake/lib/bb/siggen.py:390 | sorting forgets the order in which the elements came |
| `Sorting.SortedNames` | bitbake/lib/bb/data.py:431 | `sorted()` of a set lists each name once, in order |
| `Signatures.SignatureGeneratorBasic.PrepTaskhash` | bitbake/lib/bb/siggen.py:337-385 | ends in the fatal error iff a dependency that counts has no hash yet; otherwise everything for the hash is in place: a taint file that is not empty is the taint, without one a nostamp task has its uuid, and any other task none |
| `Signatures.TaskTextTells` | bitbake/lib/bb/siggen.py:387-408 | with base hashes and dependency hashes of one length each, two texts over the same dependencies and files are equal iff base hash, every dependency hash and what the taint adds are |
| `Signatures.FileTextTells` | bitbake/lib/bb/siggen.py:393-397 | with checksums of one length the part of the files tells every checksum |
| `Signatures.TaintEnds` | bitbake/lib/bb/siggen.py:399-403 | the taint stands at the end, without `nostamp:` if it starts with it |
| `Signatures.ForcedTask` | bitbake/lib/bb/siggen.py:380-382 | forcing a task changes what is hashed for it unless the same text was added before |
| `Signatures.SignatureGeneratorBasic.GetTaskhash` | bitbake/lib/bb/siggen.py:387-408 | hashes base hash, dependency hashes in sorted order, file checksums and taint, and records the result for this task only |
| `Signatures.PairsOrderFree` | bitbake/lib/bb/siggen.py:348-361 | the sorted list of dependencies that count is the same in whatever order they are given |
| `Signatures.HashStep` | bitbake/lib/bb/siggen.py:387-408 | with the right hashes of its dependencies a task gets the hash the graph gives it |
| `Signatures.SignatureGeneratorBasic.HashAll` | bitbake/lib/bb/siggen.py:337-408 | any order of processing succeeds iff it respects the dependencies that count, and then every hash is the one defined by recursion over the graph alone |
| `Signatures.SignatureGeneratorBasic.DumpSigtask` | bitbake/lib/bb/siggen.py:452-472 | what is written for a prepared task, a later dependency of the same name replacing an earlier one |
| `Signatures.CalcTaskhash` | bitbake/lib/bb/siggen.py:1203-1222 | the second computation hashes the text its own reading of the file gives |
| `Signatures.FilesAgree` | bitbake/lib/bb/siggen.py:393-397 | the two treatments of file names with and without `/./` contribute the same text |
| `Signatures.TaintExact` | bitbake/lib/bb/siggen.py:465-472 | when the two treatments of the taint agree, case by case |
| `Signatures.TaintShown` | bitbake/lib/bb/siggen.py:465-472 | an instance: of the taint file `xnostamp:1` one computation takes all, the other `:1` |
| `Signatures.NamesTellExact` | bitbake/lib/bb/siggen.py:458-462 | for hashes of one length, as hex digests have, the hashes looked up by name give the recorded text iff dependencies of one name have one hash |
| `Signatures.TwoHashesAgree` | bitbake/lib/bb/siggen.py:477-481 | for hashes of one length both computations hash the same text iff names tell dependencies apart and the taint condition holds; for any hashes these two are enough |
| `Signatures.SignatureGeneratorBasic.CheckTaskhash` | bitbake/lib/bb/siggen.py:477-481 | when names tell dependencies apart and the taint condition holds the recomputed hash equals the recorded one |
| `Signatures.SharedNameDiffers` | bitbake/lib/bb/siggen.py:460-462 | an instance: with two dependencies of one name the text `ab` becomes `bb` |
| `Signatures.CalcBasehash` | bitbake/lib/bb/siggen.py:1187-1201 | defined iff every dependency has a value in the file, and then the hash over the sorted dependencies |
| `Signatures.CheckBasehash` | bitbake/lib/bb/siggen.py:474-476 | for every task of every recipe the base hash recomputed from the file equals the recorded one, since no ignored variable is a dependency |
| `ChecksumDiff.TakeSurplus` | bitbake/lib/bb/siggen.py:1015-1024 | the entries one list has beyond the other, each as often as it has more |
| `ChecksumDiff.FileChecksumsDiff` | bitbake/lib/bb/siggen.py:1006-1037 | removed with old sides, and added with new sides, are the two multiset differences; changes pair one file with two different checksums; no file is both added and removed; all empty iff the inputs are permutations |
| `StreamCodec.SiggenRecipeInfo.Save` | bitbake/lib/bb/cache.py:290-304 | the loop sends a value with its number the first time and the number alone later |
| `StreamCodec.SiggenRecipeInfo.Restore` | bitbake/lib/bb/cache.py:307-326 | the loop reads a table through this process's own numbers, shares equal values, and leaves the numbers of other processes alone |
| `StreamCodec.SiggenRecipeInfo.Reset` | bitbake/lib/bb/cache.py:282-287 | numbering starts again and all reading tables are empty |
| `StreamCodec.RecordInStep` | bitbake/lib/bb/cache.py:290-338 | a reader that has every number the writer may refer to restores the record and stays in step |
| `StreamCodec.RecordOutOfStep` | bitbake/lib/bb/cache.py:290-338 | a reader that lacks numbers restores the record or fails, and what it then has is still right |
| `StreamCodec.KeyErrorExact` | bitbake/lib/bb/cache.py:314-325 | reading a table fails iff some entry is a number that neither the reader's table nor an earlier entry brings; otherwise the table gains exactly the numbers brought |
| `StreamCodec.RecordErrorExact` | bitbake/lib/bb/cache.py:307-338 | the same for a whole record: its three tables fail and teach as their entries in one list would |
| `StreamCodec.RoundTrip` | bitbake/lib/bb/cache.py:282-338 | any number of processes, any merge keeping each one's order, writer resets at any time: every record received is the one saved, none lost or reordered |
| `StreamCodec.NeverWrong` | bitbake/lib/bb/cooker.py:2239-2243 | with resets of the reader too, every record received is the one saved or a KeyError |
| `StreamCodec.AfterReset` | bitbake/lib/bb/cache.py:282-287 | what is saved right after a reset of the writer is restored by any reader |
| `StreamCodec.LostExact` | bitbake/lib/bb/cooker.py:2239-2247 | in any run each record was received at one step, and is a KeyError iff it then held a number that the reader's table lacked and the record did not bring |
| `StreamCodec.ReaderResetLoses` | bitbake/lib/bb/cooker.py:2239-2247 | a run in which a reset of the reader turns the second of two equal records into a KeyError |
| `FrameFifo.PushLists` | apps/vtx.c:307-311 | a push on a ring that is not full adds the index at the end of the list it holds |
| `FrameFifo.RollbackLists` | apps/vtx.c:316-319 | a rollback takes the newest entry off |
| `FrameFifo.PopLists` | apps/vtx.c:382-385 | a pop gives the oldest entry and takes it off |
| `FrameFifo.FullPushClobbers` | apps/vtx.c:309-310 | a push on a full ring, which looks empty, replaces the oldest entry |
| `FrameFifo.Fifo.Push` | apps/vtx.c:308-311 | the critical section of the capture thread does to the array what the ring function does |
| `FrameFifo.Fifo.Rollback` | apps/vtx.c:317-319 | so does the rollback |
| `FrameFifo.Fifo.Pop` | apps/vtx.c:382-385 | and that of the transmit thread |
| `FrameFifo.StepSafe` | apps/vtx.c:307-406 | every step of either thread keeps each buffer with one owner and the ring equal to what is in flight |
| `FrameFifo.EveryRunSafe` | apps/vtx.c:245-425 | with no more buffers than slots every interleaving, refusal, failed requeue and restart keeps that, and the popped index is the completed frame's buffer |
| `FrameFifo.Overrun` | apps/vtx.c:307-384 | with one buffer more there is a run that returns a buffer the encoder still holds |
| `FrameFifo.SafeIffRoomForAll` | apps/vtx.c:46-47 | the popped index is always right iff the ring has a slot for every buffer |
| `FrameFifo.SourceIsSafe` | apps/vtx.c:46-47 | four buffers and four slots are safe |
| `FrameFifo.AllComeHome` | apps/vtx.c:245-425 | every run with room for all buffers can go on until ring and encoder are empty, and then each buffer the camera did not reject is with the camera |
| `FrameFifo.BulkWriteFrame` | apps/vtx.c:150-191 | what the endpoint takes is a beginning of header and slice with one zero added to avoid a multiple of 512, the result is its length, and -1 means it is incomplete |
| `TaskChains.Follower.FollowChain` | bitbake/lib/bb/build.py:1011-1028 | terminates; fails iff some chain comes back on itself before the end; otherwise adds exactly the tasks on chains to the end and leaves `chain` as it was |
| `TaskChains.TasksBetween` | bitbake/lib/bb/build.py:1003-1030 | the result holds once each exactly the tasks on a chain from start to end, if the recipe has a task besides the end |
| `TaskChains.RankedNeverReturns` | bitbake/lib/bb/build.py:1014-1015 | on an acyclic recipe the fatal error cannot happen |
| `TaskChains.SingleTaskIsNothing` | bitbake/lib/bb/build.py:1017-1023 | a recipe whose only task is the end has an empty result although the end is on a chain |
| `Providers.SortPriorities` | bitbake/lib/bb/providers.py:63-88 | every file is in exactly one group, groups by falling priority, inside by rising preference and otherwise in the given order |
| `Providers.GroupsPermute` | bitbake/lib/bb/providers.py:63-88 | flattened, the groups hold each file as often as it was given |
| `Providers.FindLatestProvider` | bitbake/lib/bb/providers.py:199-216 | the first file that no other beats by preference and then version |
| `Providers.MatchesWhen` | bitbake/lib/bb/providers.py:105-116 | a wanted version that ends in % stands for all that start like it, any other for itself; an epoch or revision given must be the same |
| `Providers.FindPreferredProvider` | bitbake/lib/bb/providers.py:105-167 | nothing iff no file has the wanted version; otherwise one of the highest priority among those and the lowest preference there |
| `Providers.FilterCommon` | bitbake/lib/bb/providers.py:237-293 | one file for each recipe, wishes that are met first, each part by name, the recipe named like the target before all; a missing required version cuts this short before that recipe |
| `Providers.WithSorted` | bitbake/lib/bb/providers.py:256-273 | the recipes whose wish is met, and the others, stay in the order of their names |
| `Providers.FilterProviders` | bitbake/lib/bb/providers.py:295-321 | a preferred provider among the eligible moves to the front and nothing else moves; found iff there is one |
| `RuntimeProviders.InferPreferred` | bitbake/lib/bb/providers.py:348-372 | the picks are those made by looking at all files but one, and they lead the result, the last pick first |
| `RuntimeProviders.FilterProvidersRunTime` | bitbake/lib/bb/providers.py:323-379 | the result is a reordering; a preference for the runtime target itself decides alone |
| `RuntimeProviders.PassedOverHarmless` | bitbake/lib/bb/providers.py:356-370 | all picks are as they should be when the file passed over would have picked nothing |
| `RuntimeProviders.MissedExact` | bitbake/lib/bb/providers.py:356-375 | a conflict goes unreported iff the file passed over would have picked besides the first pick and no other file after it would |
| `RuntimeProviders.ConflictMissed` | bitbake/lib/bb/providers.py:356-375 | an instance: two conflicting preferences of which only one is counted |
| `LayerPriorities.Collections.CalcLayerPriority` | bitbake/lib/bb/cooker.py:1257-1267 | the memoised recursion gives a layer the priority defined over its dependencies and keeps what is right already |
| `LayerPriorities.Collections.CalcAll` | bitbake/lib/bb/cooker.py:1269-1271 | in any order of layers each ends up with that priority |
| `LayerPriorities.AboveDependencies` | bitbake/lib/bb/cooker.py:1259-1267 | a layer without a given priority comes above all its dependencies and the smallest given one, and no higher than that takes |
| `FileNames.NamesShown` | bitbake/lib/bb/cache.py:357-366 | how the names look: `mc:arm:virtual:native:a.bb` |
| `FileNames.RoundTripExact` | bitbake/lib/bb/cache.py:341-366 | file, class and multiconfig come back from the virtual name iff the name can carry them: no colon in the multiconfig, none in the file of a variant, no file that looks like a virtual name |
| `FifoMessages.StreamAppend` | bitbake/lib/bb/build.py:481-518 | bytes that come later join what earlier ones left unfinished |
| `FifoMessages.FifoReader.ReadFifo` | bitbake/lib/bb/build.py:481-518 | one call hands on every finished message of buffer and new data, in order, and keeps the unfinished rest |
| `FifoMessages.ReadPieces` | bitbake/lib/bb/build.py:481-518 | however a stream is cut into pieces the same messages are handed on |
| `FifoMessages.RoundTripExact` | bitbake/lib/bb/build.py:485-492 | a list of messages comes back as written iff no command holds a space or zero byte and no text a zero byte |
| `CowHistory.Layer.Get` | bitbake/lib/bb/COW.py:61-79 | asking for a list through a layer gives it its own copy and no layer shows anything different |
| `CowHistory.Layer.GetReadonly` | bitbake/lib/bb/COW.py:83-105 | a read-only lookup finds the nearest list on the chain |
| `CowHistory.VariableHistory.Copy` | bitbake/lib/bb/data_smart.py:248-251 | a copied history shows what the original shows, and the original and all others what they showed |
| `CowHistory.VariableHistory.Record` | bitbake/lib/bb/data_smart.py:279-285 | an entry is seen through this history and those copies of it without a list of their own for the variable, and nowhere else; a repeated `nodups` entry changes nothing |
| `CowHistory.OnlyDescendantsPass` | bitbake/lib/bb/COW.py:45-50 | only layers derived from a layer ever find its lists |
| `CowHistory.CopySeesLaterEntries` | bitbake/lib/bb/COW.py:61-79 | a copy sees what is recorded in its original later iff it has no list of its own; never the other way round |

## Left out

- Datastore: OVERRIDES is a fixed list (`need_overrides`, `overridevars` and the refresh in `setVar` are not modelled),
  and so are filters, `renameVar`, `delVarFlags`, `__exportlist`, `BB_RENAMED_VARIABLES`, history and tracking of
  writes, `noweakdefault` and `parsing` reads.
- Datastore texts: references are parsed once; `${@...}`, references made by expansion, and the regular expression
  that splits `NAME:append` are not modelled. Lists under `:append`, `:prepend` and `:remove` are values.
- DataSmart.DataSmart.GetVar: for acyclic references, and names between two writes such that an override that has a
  removal set and is read by one of them is read by no other of them that has removals. Outside that the code can
  answer wrongly even if one reader alone has removals; `RemovalLeak.ReadBoth` says what it answers for two.
- DataSmart.DataSmart.GetFlag: for flags other than the value, which `GetVar` covers.
- RemovalLeak.LeakExact: for two readers of one override; what several of them leave together is only bounded, by
  `DataSmart.DataSmart.Parse`.
- DataSmart.WriteToCopy: the ancestors are not written while the copy is in use.
- TaskData.TaskData.AddUnresolved: `halt` is false; `mcdepends`, `tdepends`, extra dependency functions, messages and
  events are not modelled, provider filters are inputs, and task-level dependencies are not checked when a recipe is
  added, as in the code.
- ParseProtocol.MissingWorkRaises: that the generator ends while workers live is not claimed; time-outs of joins, and
  what `shutdown` does to live workers beyond a quit flag and kills, are not modelled.
- DependencyClosure.BuildDependencies: what parsers find in a text is an input; values with `vardepvalueexclude` and
  `contains` are not modelled.
- Signatures.SignatureGeneratorBasic.HashAll: the unihash of a task is its hash, each nostamp task draws a fixed uuid,
  and checksums come in a fixed order; hash equivalence servers are not modelled.
- JoinedOverrides.LastWins: for candidates that name no override twice; such a candidate meets others with the same
  moments, and the order of the index entries decides between them.
- Signatures.TwoHashesAgree: compares the hashed texts; the hash function is arbitrary, so equal hashes of different
  texts are not excluded.
- StreamCodec.RoundTrip: process identifiers of writers that write at the same time are distinct; pickling is not
  modelled.
- FrameFifo.EveryRunSafe: the encoder completes accepted frames once each and in order, and stopping lets both threads
  finish their turn; ioctl calls, partitions before the last, timing and drop counting are not modelled.
- FrameFifo.BulkWriteFrame: a write of zero bytes is one turn of the loop; that it ends is not claimed.
- TaskChains.TasksBetween: every task has a dependency list.
- Providers.FindLatestProvider: the version comparison is any function whose sign is a total preorder.
- Providers.FindPreferredProvider: the wanted version is parsed already; versions looked up in the configuration are
  inputs.
- RuntimeProviders.PassedOverHarmless: about the list of picks; the converse fails, since another file can make the
  same pick later. `MissedExact` is exact about whether a conflict is reported.
- LayerPriorities.Collections.CalcAll: layers do not depend on themselves; the code recurses for ever if they do.
- CowHistory.VariableHistory.Record: tracking is on; deleted keys and immutable values under the same key are not
  modelled.
- File, process, socket and lock handling, event firing, logging, UI, network and server code, the recipe parser, and
  all scripts and bindings.
