# hdl-make core, modelled in Dafny

This project models the core logic of hdl-make and proves properties of that model. hdl-make is a Python tool that collects the HDL modules of a design and fetches them from version control. It then classifies the files of those modules and orders them by dependency. Five pieces are modelled, one Dafny module each:

| Dafny module | file | what it models |
|---|---|---|
| `DepFiles` | `dep_file.dfy` | `hdlmake/dep_file.py`: `DepRelation` and its `satisfies` rule, `File.extension`, and `DepFile`, including the memoised `get_dep_level` with its cycle guard |
| `SrcFile` | `srcfile.dfy` | `hdlmake/srcfile.py`: the file-class taxonomy and the four vendor tables, the `"work"` library default, the relations of IP and Qsys files, `SourceFileSet` (`add`, `filter`, `sort`) and `create_source_file` |
| `ModuleCore` | `module_core.dfy` | `hdlmake/module/core.py`: `ModuleConfig.init_config`, `_check_filepath`, `_make_list_of_paths`, the defaults of `ModuleCore`, and library inheritance with action lower-casing in `_process_manifest_universal` |
| `Pool` | `action.dfy` | `hdlmake/action/action.py`: the URL-deduplicated pool (`_add`, `__contains`, `new_module`), the merged configuration, the parseable/privative split, the solver's once-only flag and the `run` dispatch |
| `Commands` | `commands.dfy` | `hdlmake/action/commands.py`: `_check_all_fetched`, the `_fetch_all` work queue, `clean`, `update`, and the text of `list_files` and `_write_qip` |

Three support modules hold the Python built-ins the core relies on:
- `Results`: `Option` stands for `None`; `Result` stands for a raised exception.
- `Strings`: `lower`, `split`/`rsplit`, `join`, slicing, and string order.
- `Seqs`: list comprehensions with a filter, and `reverse`.

How the model represents the program:
- **Object graphs are arenas.** Module objects and dependency files live in a sequence, and a reference is an index into it. This covers submodules and `depends_on`. Memoised dependency levels are a separate sequence.
- **Python sets are Dafny sets.** They are compared by value, not by object identity.
- **Outside collaborators are parameters.** These include the file system, the path helpers, the URL parsers, the version-control backends, the dependency solver and the tool loaders. Each becomes a value or a total function.
- **Independent effects are computed separately.** For each child, `_fetch_all` calls `_add` and then appends the child to the queue. `_add` never reads the queue, so `Commands.Enqueue` computes the pool additions and the queue additions as two passes over the children.
- **Fuel bounds recursion that need not end.** `_add` on a cycle of fetched modules and the `_fetch_all` loop take a fuel bound.

## What the code does not guarantee

Some properties one might expect of hdl-make do not hold for its code. The model follows the code, and a lemma exhibits each case.

| expected | code | lemma that shows it |
|---|---|---|
| A module is fetched at most once, even in a diamond; the docstring of `_add` says a module is added only if it is not already in the pool (`hdlmake/action/action.py:174`). | `_fetch_all` queues a child even when `_add` rejects its URL. Two module objects with the same URL are then both fetched (`hdlmake/action/commands.py:107-112`). | `Commands.FetchesSameUrlTwice` |
| `clean` removes children before parents; the comment says modules are removed "in backward order" (`hdlmake/action/commands.py:137`). | `clean` removes in reverse pool order. `_add` of an already fetched module puts its submodules before it, so the parent can be removed first. This needs `_add` to meet a module that is already fetched and whose submodules are known; whether that happens depends on module creation and manifest parsing in `hdlmake/module/module.py`, which is not part of this model. | `Commands.CleanCanRemoveParentFirst` |
| The fetch crawl always finishes. | `_add` recurses without a bound of its own into the submodules of fetched modules; on a cycle it recurses until Python's recursion limit raises `RecursionError`, which no caller catches. As in the row above, reaching such a module depends on `hdlmake/module/module.py`. | `Pool.AddDivergesOnSelfReference` |
| A file's dependency level is 0 exactly when it has no dependencies. | This holds only on acyclic graphs. A file that depends only on itself gets level 0 through the cycle guard. | `DepFiles.SelfDependentFileHasLevelZero` |
| The dependency level does not depend on the order in which `depends_on` is visited. | On a cycle, the level depends on which file of the cycle is reached first. `depends_on` is a set of files hashed by path (`hdlmake/dep_file.py:137-138`), and Python's string hashes vary between runs. | `DepFiles.DepLevelDependsOnOrder` |
| `new_module` keeps the pool free of duplicate URLs; its docstring says the pool "can easily control its content" (`hdlmake/action/action.py:85-89`). | It calls `_add` as written, which can append a second module with a URL already present (see Findings). This too needs a fetched module with known submodules, which depends on `hdlmake/module/module.py`. | `Pool.NewModuleCanDuplicateUrl` |
| Every module can be initialised; the top module is created by `new_module` with no parent and no source (`hdlmake/action/action.py:53-56`). | `init_config` treats a source other than `local` as remote. Both remote branches log `self.parent.path`, so a module whose arguments reach `init_config` with a non-`local` source and no parent raises there (`hdlmake/module/core.py:64-74`). The arguments pass through `ModuleArgs.set_args` in `hdlmake/module/module.py`, which is not part of this model, so whether the top module reaches this case is not claimed. | `ModuleCore.RemoteModuleWithoutParentRaises` |
| — | Each module lower-cases its own `action`, but `run` compares the merged configuration's raw value. An action spelt `Simulation` is therefore refused by `run`. | `Pool.RunRefusesCapitalisedAction` |

## Model

| member | source | states |
|---|---|---|
| Strings.ToLower | hdlmake/dep_file.py:58 | lower-casing keeps the length, maps each character on its own, and leaves no upper-case letter |
| Strings.ToLowerIdempotent | hdlmake/dep_file.py:58 | a name that is already lower-cased is unchanged by lower-casing |
| Strings.Split | hdlmake/dep_file.py:142 | `split` on a character gives at least one piece, and no piece contains the separator |
| Strings.JoinSplit | hdlmake/dep_file.py:142-143 | joining the pieces of a split with the separator restores the string |
| Strings.SplitJoin | hdlmake/action/commands.py:170 | splitting a join of separator-free pieces gives back the pieces |
| Strings.AfterLastIsSuffix | hdlmake/dep_file.py:67-68 | the last dot-separated piece is a suffix without dots, either the whole name or preceded by a dot |
| Strings.DropLast | hdlmake/srcfile.py:283-284 | `[:-n]` for a positive n removes n characters from the end, or leaves nothing when the string is shorter |
| Strings.StrLeTotal | hdlmake/srcfile.py:407-410 | any two paths are ordered one way or the other |
| Strings.StrLeTransitive | hdlmake/srcfile.py:407-410 | path order is transitive |
| Strings.StrLeReflexive | hdlmake/srcfile.py:407-410 | every path is ordered before or equal to itself |
| Seqs.Filter | hdlmake/action/commands.py:134-136 | a comprehension keeps exactly the elements that pass the test |
| Seqs.FilterCounts | hdlmake/action/commands.py:134-136 | each element that passes the test occurs in the result as often as in the input, and the others not at all |
| Seqs.ReverseCounts | hdlmake/action/commands.py:137 | `reverse` only reorders: every element occurs as often as before |
| Seqs.Reverse | hdlmake/action/commands.py:137 | `reverse` puts element k at position n-1-k |
| Seqs.FilterKeepsOrder | hdlmake/action/commands.py:134-136 | two kept elements keep their relative order |
| DepFiles.NewRelation | hdlmake/dep_file.py:48-58 | a relation keeps its direction and kind and stores its name lower-cased |
| DepFiles.MakeRelation | hdlmake/dep_file.py:38-55 | construction succeeds exactly for direction PROVIDE or USE and kind ENTITY, PACKAGE, INCLUDE or ARCHITECTURE |
| DepFiles.MakeRelationOfCodes | hdlmake/dep_file.py:37-46 | the numeric codes name the relation values, and MODULE builds the same relation as ENTITY |
| DepFiles.NewRelationIgnoresCase | hdlmake/dep_file.py:58 | two relations with the same direction and kind are equal exactly when their names agree after lower-casing |
| DepFiles.Satisfies | hdlmake/dep_file.py:60-74 | only a PROVIDE satisfies a USE, and only with equal kinds; it then holds exactly when the names are equal, or when the last dot-separated segments are equal for a `verilog_inst.` module use |
| DepFiles.SatisfiesAsymmetric | hdlmake/dep_file.py:62-64 | if a satisfies b, then b does not satisfy a |
| DepFiles.ProvisionSatisfiesUse | hdlmake/dep_file.py:72-73 | providing a name satisfies using the same name and kind |
| DepFiles.VerilogInstanceMatchesAnyLibrary | hdlmake/dep_file.py:65-68 | a `verilog_inst.` use of a unit is satisfied by the unit provided in any library |
| DepFiles.SuffixAfterDot | hdlmake/dep_file.py:67-68 | the segment after the last dot of `x.y` is `y` when `y` has no dot |
| DepFiles.Extension | hdlmake/dep_file.py:140-144 | the extension is the dot-free suffix that is either the whole path or preceded by a dot, hence the text after the last dot; it is the whole path when there is no dot |
| DepFiles.AddRelation | hdlmake/dep_file.py:161-163 | adding a relation adds exactly that relation to the set |
| DepFiles.NewFileSatisfiesNothing | hdlmake/dep_file.py:152-159 | a new file has no dependencies, is not parsed, and satisfies no relation |
| DepFiles.AddRelationSatisfies | hdlmake/dep_file.py:165-170 | after adding r, a file satisfies b exactly when it did before or r satisfies b |
| DepFiles.GetDepLevel | hdlmake/dep_file.py:172-192 | the computation only fills in levels: every level already stored keeps its value; it records the level it returns, and returns a stored level unchanged |
| DepFiles.DepLevels | hdlmake/dep_file.py:185-186 | the levels of the dependencies, one per dependency, computed in turn; every level already stored keeps its value and every level set stays set |
| DepFiles.DepLevelMemoised | hdlmake/dep_file.py:172-192 | asking again after a computation returns the same level and changes nothing |
| DepFiles.SelfDependentFileHasLevelZero | hdlmake/dep_file.py:183-186 | a file whose only dependency is itself gets level 0, because the cycle guard returns -1 |
| DepFiles.DepLevelDependsOnOrder | hdlmake/dep_file.py:172-192 | on a cycle the level depends on the order in which `depends_on` is visited: A depending on B and C, B on C, C on B and X, X on Y gets level 4 when B is visited first and 3 when C is |
| DepFiles.DepLevelsAreHeights | hdlmake/dep_file.py:185-186 | on an acyclic graph the levels of a dependency list are the heights of its files |
| DepFiles.DepLevelIsHeight | hdlmake/dep_file.py:172-186 | on an acyclic graph the computed level is the file's height in the dependency graph |
| DepFiles.DepLevelOnAcyclicGraph | hdlmake/dep_file.py:175-186 | on an acyclic graph, starting with no levels: the level is 0 exactly when there are no dependencies, and it is greater than every dependency's level |
| DepFiles.MaxNat | hdlmake/dep_file.py:186 | the largest of a non-empty list of levels |
| SrcFile.KindOfExtension | hdlmake/srcfile.py:420-457 | an extension is accepted exactly when one of the tables lists it; VHDL extensions are tried first, then Verilog, then SystemVerilog; past those, `wb`, `tcl` and `sdc` make WBGen, TCL and SDC files |
| SrcFile.VendorTableOrder | hdlmake/srcfile.py:447-454 | the vendor tables are tried in the order Xilinx, Altera, Lattice, Microsemi |
| SrcFile.ExtensionOrder | hdlmake/srcfile.py:420-434 | `vho` is a VHDL file although the Xilinx table also lists it, and matching is case-sensitive |
| SrcFile.SourceLibrary | hdlmake/srcfile.py:47-53 | a missing or empty library becomes `"work"`; any other library is kept |
| SrcFile.IpFile | hdlmake/srcfile.py:278-293 | an IP file keeps its path, is parsed, has as library the file name without its last 3 characters (`"work"` when that leaves nothing), and provides exactly the entity `name.name` for that name |
| SrcFile.IpFileProvidesItsEntity | hdlmake/srcfile.py:289-291 | an IP file satisfies a use of its own entity, whatever the case of the use's name |
| SrcFile.QsysFile | hdlmake/srcfile.py:295-322 | a Qsys file keeps its path, is parsed, has as library the file name without its last 5 characters (`"work"` when that leaves nothing), provides exactly the entity and architecture `name.name`, and uses `x.x` for exactly the library names in its content |
| SrcFile.LibraryNamesOfTags | hdlmake/srcfile.py:313-316 | the scan of a text made of `<hdlLibraryName>` tags finds exactly their names, in order |
| SrcFile.MatchAtTag | hdlmake/srcfile.py:313 | the pattern matches a whole `<hdlLibraryName>` tag around a word at the start of a text, whatever follows it |
| SrcFile.WordRunOfWord | hdlmake/srcfile.py:313 | a word-character run stops exactly at the end of a word |
| SrcFile.MatchAt | hdlmake/srcfile.py:313-316 | a match is a whole tag around a non-empty word |
| SrcFile.LibraryNames | hdlmake/srcfile.py:315-316 | every name the scan finds is a non-empty word |
| SrcFile.NoTagInsideMatch | hdlmake/srcfile.py:313-315 | no opening tag starts strictly inside a match, so matches cannot overlap |
| SrcFile.MatchAtStartingTag | hdlmake/srcfile.py:313 | a text that starts with a whole tag is matched at its start |
| SrcFile.LibraryNameHasTag | hdlmake/srcfile.py:313-316 | every name the scan finds is the word of a whole `<hdlLibraryName>` tag somewhere in the content |
| SrcFile.TagHasLibraryName | hdlmake/srcfile.py:313-316 | the word of every whole tag in the content is found |
| SrcFile.LibraryNamesAreTags | hdlmake/srcfile.py:313-316 | a string is found exactly when it is a word and the content contains the whole tag around it |
| SrcFile.MakeFile | hdlmake/srcfile.py:425-454 | the constructed file has the requested class and path; only source classes get a library; VHDL/Verilog/SV take the given one and XCI gets `"work"`; Verilog/SV include directories end with the file's directory and they keep the `is_include` flag; a new VHDL/Verilog/SV/XCI file has no relations and is not parsed; IP and Qsys files are built by their own constructors from the path and the file's content |
| SrcFile.CreateSourceFile | hdlmake/srcfile.py:412-458 | a missing or empty path is an error; otherwise the file is created exactly when its extension is known, and it has the class that extension selects |
| SrcFile.FileSetAdd | hdlmake/srcfile.py:385-396 | a string is an error; None adds nothing; a collection adds all of its items; a single file is added; nothing is removed |
| SrcFile.FileSetAddIdempotent | hdlmake/srcfile.py:385-396 | adding the same argument twice is the same as adding it once |
| SrcFile.Filter | hdlmake/srcfile.py:398-405 | the result is exactly the members that are instances of the class |
| SrcFile.FilterUnion | hdlmake/srcfile.py:398-405 | filtering distributes over union and is idempotent |
| SrcFile.FilterVerilogKeepsSv | hdlmake/srcfile.py:398-405 | filtering for Verilog also returns the SystemVerilog files |
| SrcFile.InsertByPath | hdlmake/srcfile.py:410 | inserting into a path-sorted list keeps it sorted and adds exactly the one file |
| SrcFile.Sort | hdlmake/srcfile.py:407-410 | sorting succeeds exactly when every member has a `file_path`; the result is sorted by path and holds each member once |
| ModuleCore.Get | hdlmake/action/action.py:61 | `dict.get` returns the stored value, or None for a missing key |
| ModuleCore.InitConfig | hdlmake/module/core.py:42-83 | a remote module is an error exactly when it has no parent, because the log line reads the parent's path; otherwise its path is the fetch directory joined with its basename, with `-<override>` appended when an override is set, and it is fetched exactly when that path exists and is not empty; a local module keeps its URL, has no branch or revision, is fetched, and is an error when its path does not exist |
| ModuleCore.RemotePathIndependentOfDisk | hdlmake/module/core.py:58-74 | whether a remote module is initialised, and its path, do not depend on what is on disk |
| ModuleCore.RemoteModuleWithoutParentRaises | hdlmake/module/core.py:52-74 | a remote module with no parent raises, and the same module with any parent is initialised |
| ModuleCore.OverrideSeparatesCheckouts | hdlmake/module/core.py:59-60 | different library overrides, or none, give different checkout names |
| ModuleCore.CheckFilepath | hdlmake/module/core.py:85-104 | an empty path is accepted; an absolute path is rejected; a relative path is an error when it does not exist and is accepted otherwise |
| ModuleCore.MakeListOfPaths | hdlmake/module/core.py:106-112 | the result is an error exactly when some entry is an error; otherwise it keeps exactly the accepted entries, in input order, made absolute |
| ModuleCore.NewCoreModuleDefaults | hdlmake/module/core.py:119-126 | a new module has no source, parent, URL, branch, revision, path or override, is not fetched, has library `"work"` and no action |
| ModuleCore.ProcessManifestUniversal | hdlmake/module/core.py:138-150 | an `action` that is not a string is an error; otherwise the library is the override, else the manifest's `library`, else the parent's library, else unchanged; `action` is lower-cased when present and unchanged otherwise; the configuration is untouched |
| ModuleCore.ProcessManifestIdempotent | hdlmake/module/core.py:138-150 | processing the same manifest twice is the same as processing it once |
| ModuleCore.LibraryInheritedDownChain | hdlmake/module/core.py:146-147 | in a chain of modules with no library and no override, every module inherits the root's library |
| Pool.Insert | hdlmake/action/action.py:173-189 | insertion only appends; a present URL leaves the pool unchanged; the module is appended last, after the submodules of a fetched module; an unfetched module is always inserted |
| Pool.InsertAll | hdlmake/action/action.py:179-180 | after inserting a list of submodules, every one of their URLs is in the pool |
| Pool.InsertUnfetched | hdlmake/action/action.py:176-182 | an unfetched module whose URL is absent is appended to the pool |
| Pool.InsertFetchedStep | hdlmake/action/action.py:176-182 | a fetched module whose URL is absent is appended after the pool its submodules produced |
| Pool.InsertOneLevel | hdlmake/action/action.py:176-182 | a fetched module with one unfetched submodule, neither URL present, ends up right after that submodule |
| Pool.Add | hdlmake/action/action.py:173-189 | `_add` as written: a present URL returns False and leaves the pool unchanged; an unfetched module is appended; a fetched one comes after its submodules |
| Pool.AddUnique | hdlmake/action/action.py:173-189 | `_add` with the URL check repeated after the recursion keeps the URLs of the pool distinct |
| Pool.InsertKeepsUrlsDistinct | hdlmake/action/action.py:176-182 | with the repeated check, insertion keeps the URLs of the pool distinct |
| Pool.InsertAllKeepsUrlsDistinct | hdlmake/action/action.py:179-180 | the same holds for inserting a list of submodules |
| Pool.AppendKeepsUrlsDistinct | hdlmake/action/action.py:181 | appending a module whose URL is absent keeps the URLs distinct |
| Pool.AddUnfetchedIsAddUnique | hdlmake/action/action.py:178-182 | for an unfetched module, `_add` as written and corrected agree |
| Pool.AddCanDuplicateUrl | hdlmake/action/action.py:176-181 | `_add` of a fetched module whose descendant refers back to its URL puts two modules with that URL in the pool |
| Pool.AddUniqueSkipsLoopBack | hdlmake/action/action.py:176-181 | on the same input, the corrected `_add` does not append the module again |
| Pool.AddDivergesOnSelfReference | hdlmake/action/action.py:178-180 | a fetched module that lists itself is never inserted, whatever the fuel |
| Pool.InsertDivergesOnSelfReference | hdlmake/action/action.py:178-180 | the repeated URL check does not stop that recursion |
| Pool.NewModule | hdlmake/action/action.py:84-96 | the solved flag is cleared and the module is returned, added or not, and it is in the pool afterwards; a present URL leaves the pool unchanged; an unfetched module with a new URL is appended, and distinct URLs then stay distinct |
| Pool.NewModuleCanDuplicateUrl | hdlmake/action/action.py:84-96 | `new_module` of a fetched module whose descendant refers back to its URL leaves two modules with that URL in the pool |
| Pool.ConfigDict | hdlmake/action/action.py:159-171 | a key is in the merged configuration exactly when some module's manifest has it, and it takes the value from the earliest such module in pool order |
| Pool.CompleteFileSet | hdlmake/action/action.py:98-105 | the complete file set is exactly the union of the pool modules' file sets |
| Pool.BuildFileSet | hdlmake/action/action.py:128-147 | a file is added to the parseable set when its class is parseable, and to the privative set when it is privative and not parseable; nothing else changes |
| Pool.BuildFileSetSplit | hdlmake/action/action.py:131-147 | with no tool, VHDL/Verilog/SV/IP/Qsys files are parseable and all others privative; with a tool, parseable wins over privative, and a file of neither kind is dropped |
| Pool.DefaultParseableKinds | hdlmake/action/action.py:133-134 | with no tool, a file is parseable exactly when it is a VHDL, Verilog, SystemVerilog, IP or Qsys file |
| Pool.SolveFileSet | hdlmake/action/action.py:107-126 | the solver is called exactly when the flag is clear, on the parseable files with the manifest's standard libraries followed by the tool's; the flag is then set; with `all_files` the parseable set is kept, otherwise it becomes the dependency set |
| Pool.SolverRunsOnceUntilNewModule | hdlmake/action/action.py:84-119 | a second solve makes no solver call, and after `new_module` the next solve makes one |
| Pool.Run | hdlmake/action/action.py:60-82 | no action selects no tool and the top module; simulation or synthesis needs its tool variable and takes its own top, falling back to the top module, and writes that top back; any other action is an error |
| Pool.RunIdempotent | hdlmake/action/action.py:70-80 | running again on the written-back configuration gives the same outcome |
| Pool.RunRefusesCapitalisedAction | hdlmake/action/action.py:60-82 | a module lower-cases the action `Simulation`, while `run` refuses it |
| Commands.CheckAllFetched | hdlmake/action/commands.py:51-60 | the check fails exactly when some pool module is not fetched, and it lists exactly those modules |
| Commands.BackendFor | hdlmake/action/commands.py:84-90 | svn, git and gitsm have a backend; any other source fails the assertion |
| Commands.MarkFetched | hdlmake/action/commands.py:85-92 | a successful fetch leaves the module fetched, with its URL and submodules unchanged |
| Commands.Fetch | hdlmake/action/commands.py:80-93 | a successful fetch marks exactly the popped module fetched, records one call with its backend, and leaves the pool and the distinctness of its URLs alone |
| Commands.Enqueue | hdlmake/action/commands.py:107-115 | the unfetched children are pushed in order, fetched ones are skipped, and the pool only grows |
| Commands.PendingChildren | hdlmake/action/commands.py:107-108 | the children to queue are exactly the unfetched ones; there are none when every child is fetched |
| Commands.AddChild | hdlmake/action/commands.py:111 | adding an unfetched child either leaves the pool as it was or appends that child, and keeps the URLs of the pool distinct |
| Commands.AddChildren | hdlmake/action/commands.py:107-111 | the pool only grows, and only by children being queued |
| Commands.AddChildrenKeepsUrlsDistinct | hdlmake/action/commands.py:107-111 | adding the unfetched children one by one keeps the URLs of the pool distinct |
| Commands.EnqueueKeepsQueued | hdlmake/action/commands.py:107-112 | a pool module that is neither fetched nor queued never appears: every child added to the pool is also queued |
| Commands.EnqueueAddsUnfetchedChildren | hdlmake/action/commands.py:107-112 | every module the pool gains is an unfetched child |
| Commands.EnqueueFetchedChildren | hdlmake/action/commands.py:113-115 | fetched children change neither the pool nor the queue |
| Commands.EnqueueKeepsUrlsDistinct | hdlmake/action/commands.py:111 | with the corrected `_add`, queuing children keeps pool URLs distinct |
| Commands.MarkKeepsUrlsDistinct | hdlmake/action/commands.py:91-93 | fetching a module keeps the URLs of the pool distinct |
| Commands.Step | hdlmake/action/commands.py:100-115 | the last queued module is popped; a fetched one makes no backend call; another one is fetched with the backend of its source; an unknown source aborts naming the module; a failed fetch aborts naming the module and its URL; the pool only grows and unfetched pool modules stay queued |
| Commands.VisitChildren | hdlmake/action/commands.py:103-115 | examining the children only grows the pool and the queue, keeps unfetched pool modules queued and URLs distinct, and with no children just continues with the rest of the queue |
| Commands.NotFetchedUnchanged | hdlmake/action/commands.py:103-106 | a module that is not fetched now has not changed and was never fetched by a backend call |
| Commands.StepKeepsInvariant | hdlmake/action/commands.py:100-115 | one iteration keeps the loop invariant |
| Commands.FetchKeepsCallsSound | hdlmake/action/commands.py:84-92 | after a successful fetch every recorded call is still on a module not fetched at the start, with the backend of its source, which succeeded, and no module is fetched twice |
| Commands.FetchKeepsOnlyCalledChanged | hdlmake/action/commands.py:91-93 | after a fetch, every module is either unchanged or marked fetched by a recorded call |
| Commands.StepWhenAllFetched | hdlmake/action/commands.py:103-104 | once every module is fetched, an iteration only pops the queue |
| Commands.FetchAll | hdlmake/action/commands.py:77-115 | on completion every pool module is fetched; each backend call was made once, on a module that was not fetched, with the backend of its source; a failure names an unfetched module and its URL; distinct URLs stay distinct; an all-fetched design makes no call |
| Commands.DiamondFirstStep | hdlmake/action/commands.py:107-112 | two children with the same URL are both queued but only one enters the pool |
| Commands.FetchesSameUrlTwice | hdlmake/action/commands.py:100-112 | the backend is then called on both children, which share a URL |
| Commands.Clean | hdlmake/action/commands.py:131-145 | `clean` removes exactly the fetched git, gitsm and svn modules of the pool |
| Commands.CleanCounts | hdlmake/action/commands.py:131-145 | each removable module is removed as many times as it occurs in the pool |
| Commands.CleanReversesPoolOrder | hdlmake/action/commands.py:134-137 | modules are removed in the reverse of their pool order |
| Commands.CleanCanRemoveParentFirst | hdlmake/action/commands.py:131-137 | a fetched module added by `_add` as written, with a fetched submodule, is removed before that submodule |
| Commands.ParentChildAdded | hdlmake/action/action.py:173-182 | on that input `_add` as written and corrected agree: the submodule is put in the pool before its parent |
| Commands.CleanRemovesOnlyFetchedRemotes | hdlmake/action/commands.py:134-136 | every removed module is fetched, has a fetch backend, and is not local |
| Commands.Update | hdlmake/action/commands.py:238-246 | `update` updates exactly the fetched git modules |
| Commands.UpdateCounts | hdlmake/action/commands.py:238-246 | each fetched git module is updated as many times as it occurs in the pool |
| Commands.UpdateKeepsPoolOrder | hdlmake/action/commands.py:238-246 | modules are updated in their pool order |
| Commands.UpdatedAreRemovable | hdlmake/action/commands.py:245-246 | every updated module would also be removed by `clean`, and uses the git backend |
| Commands.ListFilesText | hdlmake/action/commands.py:163-170 | an empty file list prints an empty line |
| Commands.ListFilesRoundTrip | hdlmake/action/commands.py:163-170 | splitting the output on a one-character delimiter that no path contains gives back the paths, reversed when asked; the default delimiter is a newline |
| Commands.QipType | hdlmake/action/commands.py:177-186 | VHDL is `VHDL_FILE`, Verilog and SV are `VERILOG_FILE`, IP is `IP_FILE`, Qsys is `QSYS_FILE`, and everything else is `MISC_FILE` |
| Commands.QipLine | hdlmake/action/commands.py:175-189 | a file gets a line exactly when it has a library |
| Commands.QipLines | hdlmake/action/commands.py:174-189 | there is one line per file, in list order, and an error when any file lacks a library |
| Commands.QipText | hdlmake/action/commands.py:195-196 | the text exists exactly when every file has a library, and it ends with a newline |
| Commands.QipLineText | hdlmake/action/commands.py:189 | the line names the library, the type and the relative path; it holds no newline when they hold none |
| Commands.QipTextHasOneLinePerFile | hdlmake/action/commands.py:172-196 | without newlines in libraries and paths, the IP file's lines are exactly the assignments of the files, in order |

## Left out

- File system, working directory and clocks: `os.path.exists`/`listdir`/`isdir`/`abspath`/`relpath`, `path_mod.rel2abs`/`relpath`, and the `url_parse`, `svn_parse` and basename helpers. They are parameters: `Disk`, `PathOps`, `ParsedUrl`, `Host`, and a `relPath` function.
- `path_mod.pathsplit` and `path_mod.is_abs_path` are fixed to POSIX paths rather than taken as parameters: a file name is the text after the last `/` (`SrcFile.FileName`), and a path is absolute when it starts with `/` (`ModuleCore.IsAbsPath`). Windows drive letters and `\` separators are not modelled.
- Reading a Qsys file (`io.open` and `mmap`) is not modelled: `SrcFile.QsysFile` takes the content as a string. The source raises on an empty `.qsys` file, because `mmap` refuses a length of 0; the model returns the file with no uses.
- The version-control backends (`Git`, `GitSM`, `Svn`, `Local`): a backend fetch is a boolean function of the backend and the module. A successful fetch is taken to leave the module fetched, which is the backends' job and is not part of this model.
- Manifest parsing and the submodule lists it produces: each module object's submodule list is given in the arena.
- Commands.Step: `_fetch_module` calls `parse_manifest` after a successful fetch (`hdlmake/action/commands.py:93`). Parsing lives in `hdlmake/module/module.py`, which is not part of this model, and it very likely creates the children through `new_module`, which adds them to the pool, fetched children included. The model adds to the pool only the unfetched children, at the point where `_fetch_all` calls `_add`. Its clauses that the pool grows only by queued children and that unfetched pool modules stay queued do not cover additions made during parsing.
- Commands.FetchAll: for the same reason, its invariant and its result (every pool module fetched on completion, distinct URLs kept) are stated for the pool additions of the loop itself, not for those `parse_manifest` may make.
- The dependency solver (`solve`, `make_dependency_set`, `make_dependency_sorted_list`), the VHDL/Verilog/XCI parsers, and `load_sim_tool`/`load_syn_tool`. The solver call is returned as a record. The dependency set and the sorted file list are inputs. A tool is its parseable classes, privative classes and standard libraries.
- Logging, printing, the `fetch_pre_cmd`/`fetch_post_cmd` shell hooks, `list_modules`, `makefile`, and the file write in `_write_qip`. They produce no result the model states. The one exception is in `init_config`: its log line reads the parent's path, which raises for a module without a parent, and that error is modelled.
- `list_files` sets the top entity from `--top` before solving; that only feeds the solver, so it is not modelled.
- The fallback of `_write_qip` to the top entity for an empty file name is not modelled: `list_files` calls it only with a non-empty name.
- In `_get_config_dict`, the rewrite of `fetchto` relative to the module path and the in-place mutation of each module's manifest dictionary are not modelled. Only the merge is.
- `hdlmake/tools/ghdl_syn.py` is not part of this model. It emits Makefile text on top of a base class that is not part of this model either.
- Python's Unicode `lower()` is modelled as ASCII lower-casing only.
- Python sets are modelled by value, not object identity; `SourceFileSet` and dependency-file sets are Dafny sets.
- `depends_on` is a set in the source, iterated in the order of its hashes. The model takes the order as a sequence, given with the graph. On an acyclic graph the order does not change any level (`DepFiles.DepLevelIsHeight`); on a cycle it can (`DepFiles.DepLevelDependsOnOrder`), and which order Python uses is not modelled.
- Pool.Add: `_add` has a fuel bound on the depth of its recursion into fetched submodules. It returns None when the bound is reached. On a cycle of fetched modules the source recurses until Python's recursion limit raises `RecursionError`; None stands for that error.
- Commands.FetchAll: the loop runs at most `fuel` iterations and reports `Pending` when the bound is reached. Termination of `_fetch_all` is not claimed.
- Commands.FetchAll: the model passes children to the corrected `_add` (see Findings). This changes nothing for the loop, which only passes unfetched children (`Pool.AddUnfetchedIsAddUnique`).
- SrcFile.KindOfExtension: the order of the vendor tables is stated in `SrcFile.VendorTableOrder` rather than in this function's own contract.

## Findings

| source | as written | input that shows it | evidently intended | confidence | as-written member | corrected member |
|---|---|---|---|---|---|---|
| hdlmake/action/action.py:173-182 | `_add` checks the URL once, before inserting the submodules of a fetched module, then appends the module | fetched module A with fetched submodule C, whose manifest refers back to A's URL with an unfetched module object: the pool becomes [A's copy, C, A]; reaching `_add` with an already fetched A depends on `hdlmake/module/module.py`, which is not part of this model | no two modules of the pool share a URL (the docstring: add the module if it is not already in the pool) | medium, not executed | Pool.Add, Pool.AddCanDuplicateUrl, Pool.NewModuleCanDuplicateUrl | Pool.AddUnique, Pool.AddUniqueSkipsLoopBack |
