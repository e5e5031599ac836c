/** The pool of modules an action works on: URL-deduplicated insertion, the
    merged configuration, the split of the design's files into parseable and
    tool-specific sets, the once-only solver call and the dispatch on the
    requested action (hdlmake/action/action.py). */
module Pool {
  import opened Results
  import opened SrcFile
  import opened Strings
  import opened ModuleCore

  /** A module object: its configuration, its manifest dictionary once parsed,
      its file set, and its submodules (indices of other module objects). */
  datatype PoolModule = PoolModule(config: ModuleConfig, manifest: Option<Manifest>, files: Option<FileSet>, subs: seq<nat>)

  /** Every submodule reference names a module object. */
  predicate ValidArena(arena: seq<PoolModule>) {
    forall i, j :: 0 <= i < |arena| && 0 <= j < |arena[i].subs| ==> arena[i].subs[j] < |arena|
  }

  predicate InArena(arena: seq<PoolModule>, pool: seq<nat>) {
    forall k :: 0 <= k < |pool| ==> pool[k] < |arena|
  }

  /** `pool` is a prefix of `longer`: insertion only appends. */
  predicate Prefix(pool: seq<nat>, longer: seq<nat>) {
    |pool| <= |longer| && longer[..|pool|] == pool
  }

  function Url(arena: seq<PoolModule>, m: nat): Option<string>
    requires m < |arena|
  {
    arena[m].config.url
  }

  /** `__contains`: some module of the pool has the URL of `m`. */
  predicate Contains(arena: seq<PoolModule>, pool: seq<nat>, m: nat)
    requires InArena(arena, pool) && m < |arena|
  {
    exists k :: 0 <= k < |pool| && Url(arena, pool[k]) == Url(arena, m)
  }

  /** No two modules of the pool share a URL. */
  predicate DistinctUrls(arena: seq<PoolModule>, pool: seq<nat>)
    requires InArena(arena, pool)
  {
    forall k, l :: 0 <= k < l < |pool| ==> Url(arena, pool[k]) != Url(arena, pool[l])
  }

  /** `_add` with a bound on the depth of the submodule recursion: `None` when
      the bound is reached. On a cycle of fetched modules the source recurses
      until Python's recursion limit raises `RecursionError`; `None` stands
      for that error. With `recheck` the URL check is repeated after the
      submodules are inserted, which is the corrected behaviour. */
  function Insert(arena: seq<PoolModule>, pool: seq<nat>, m: nat, fuel: nat, recheck: bool): (r: Option<(bool, seq<nat>)>)
    requires ValidArena(arena) && InArena(arena, pool) && m < |arena|
    ensures r.Some? ==> InArena(arena, r.value.1) && |pool| <= |r.value.1| && r.value.1[..|pool|] == pool
    ensures r.Some? ==> Contains(arena, r.value.1, m)
    ensures r.Some? && Contains(arena, pool, m) ==> r.value == (false, pool)
    ensures r.Some? && r.value.0 ==> r.value.1[|r.value.1| - 1] == m
    ensures r.Some? && r.value.0 && arena[m].config.isFetched ==>
              forall j :: 0 <= j < |arena[m].subs| ==> Contains(arena, r.value.1[..|r.value.1| - 1], arena[m].subs[j])
    ensures !arena[m].config.isFetched ==> r.Some?
    decreases fuel, 0, 0
  {
    if Contains(arena, pool, m) then Some((false, pool))
    else if !arena[m].config.isFetched then
      assert Url(arena, (pool + [m])[|pool|]) == Url(arena, m);
      Some((true, pool + [m]))
    else if fuel == 0 then None
    else
      match InsertAll(arena, pool, arena[m].subs, fuel - 1, recheck)
      case None => None
      case Some(inserted) =>
        if recheck && Contains(arena, inserted, m) then Some((false, inserted))
        else
          assert Url(arena, (inserted + [m])[|inserted|]) == Url(arena, m);
          assert (inserted + [m])[..|inserted|] == inserted;
          Some((true, inserted + [m]))
  }

  /** Inserts the submodules one after another. */
  function InsertAll(arena: seq<PoolModule>, pool: seq<nat>, subs: seq<nat>, fuel: nat, recheck: bool): (r: Option<seq<nat>>)
    requires ValidArena(arena) && InArena(arena, pool)
    requires forall j :: 0 <= j < |subs| ==> subs[j] < |arena|
    ensures r.Some? ==> InArena(arena, r.value) && |pool| <= |r.value| && r.value[..|pool|] == pool
    ensures r.Some? ==> forall j :: 0 <= j < |subs| ==> Contains(arena, r.value, subs[j])
    decreases fuel, 1, |subs|
  {
    if |subs| == 0 then Some(pool)
    else
      match Insert(arena, pool, subs[0], fuel, recheck)
      case None => None
      case Some((_, mid)) =>
        match InsertAll(arena, mid, subs[1..], fuel, recheck)
        case None => None
        case Some(after) =>
          assert after[..|mid|] == mid;
          assert forall k :: 0 <= k < |mid| ==> after[k] == mid[k];
          assert forall j :: 1 <= j < |subs| ==> subs[j] == subs[1..][j - 1];
          Some(after)
  }

  /** `_add` of an unfetched module whose URL is absent appends it. */
  lemma InsertUnfetched(arena: seq<PoolModule>, pool: seq<nat>, m: nat, fuel: nat, recheck: bool)
    requires ValidArena(arena) && InArena(arena, pool) && m < |arena|
    requires !arena[m].config.isFetched && !Contains(arena, pool, m)
    ensures Insert(arena, pool, m, fuel, recheck) == Some((true, pool + [m]))
  {
  }

  /** Inserting a one-element list is inserting its element. */
  lemma InsertAllSingle(arena: seq<PoolModule>, pool: seq<nat>, sub: nat, fuel: nat, recheck: bool, mid: seq<nat>)
    requires ValidArena(arena) && InArena(arena, pool) && sub < |arena|
    requires Insert(arena, pool, sub, fuel, recheck).Some? && Insert(arena, pool, sub, fuel, recheck).value.1 == mid
    ensures InsertAll(arena, pool, [sub], fuel, recheck) == Some(mid)
  {
    assert [sub][0] == sub && [sub][1..] == [];
  }

  /** `_add` of a fetched module whose URL is absent, once its submodules are in. */
  lemma InsertFetchedStep(arena: seq<PoolModule>, pool: seq<nat>, m: nat, fuel: nat, recheck: bool, inserted: seq<nat>)
    requires ValidArena(arena) && InArena(arena, pool) && m < |arena|
    requires arena[m].config.isFetched && !Contains(arena, pool, m) && fuel > 0
    requires InsertAll(arena, pool, arena[m].subs, fuel - 1, recheck) == Some(inserted)
    requires !(recheck && Contains(arena, inserted, m))
    ensures Insert(arena, pool, m, fuel, recheck) == Some((true, inserted + [m]))
  {
  }

  /** A fetched module with one unfetched submodule, neither URL known yet,
      is inserted after that submodule (one level of fuel suffices). */
  lemma InsertOneLevel(arena: seq<PoolModule>, m: nat, sub: nat, recheck: bool)
    requires ValidArena(arena) && m < |arena| && sub < |arena|
    requires arena[m].config.isFetched && arena[m].subs == [sub] && !arena[sub].config.isFetched
    requires !Contains(arena, [], m) && !Contains(arena, [], sub) && !Contains(arena, [sub], m)
    ensures Insert(arena, [], m, 1, recheck) == Some((true, [sub, m]))
  {
    InsertUnfetched(arena, [], sub, 0, recheck);
    assert [] + [sub] == [sub];
    InsertAllSingle(arena, [], sub, 0, recheck, [sub]);
    InsertFetchedStep(arena, [], m, 1, recheck, [sub]);
    assert [sub] + [m] == [sub, m];
  }

  /** `_add` as written: the URL is checked once, before the submodules of a
      fetched module are inserted. It returns False and leaves the pool alone
      when the URL is present, puts the submodules before the module, and
      otherwise only appends. */
  function Add(arena: seq<PoolModule>, pool: seq<nat>, m: nat, fuel: nat): (r: Option<(bool, seq<nat>)>)
    requires ValidArena(arena) && InArena(arena, pool) && m < |arena|
    ensures r.Some? ==> InArena(arena, r.value.1) && Prefix(pool, r.value.1) && Contains(arena, r.value.1, m)
    ensures r.Some? && Contains(arena, pool, m) ==> r.value == (false, pool)
    ensures r.Some? && r.value.0 ==> r.value.1[|r.value.1| - 1] == m
    ensures r.Some? && r.value.0 && arena[m].config.isFetched ==>
              forall j :: 0 <= j < |arena[m].subs| ==> Contains(arena, r.value.1[..|r.value.1| - 1], arena[m].subs[j])
    ensures !arena[m].config.isFetched ==>
              r == Some(if Contains(arena, pool, m) then (false, pool) else (true, pool + [m]))
  {
    Insert(arena, pool, m, fuel, false)
  }

  /** `_add` with the URL check repeated after the submodules are inserted:
      it keeps the URLs of the pool distinct. */
  function AddUnique(arena: seq<PoolModule>, pool: seq<nat>, m: nat, fuel: nat): (r: Option<(bool, seq<nat>)>)
    requires ValidArena(arena) && InArena(arena, pool) && m < |arena|
    ensures r.Some? ==> InArena(arena, r.value.1) && Prefix(pool, r.value.1) && Contains(arena, r.value.1, m)
    ensures r.Some? && Contains(arena, pool, m) ==> r.value == (false, pool)
    ensures r.Some? && DistinctUrls(arena, pool) ==> DistinctUrls(arena, r.value.1)
    ensures !arena[m].config.isFetched ==> r.Some?
  {
    InsertKeepsUrlsDistinct(arena, pool, m, fuel);
    Insert(arena, pool, m, fuel, true)
  }

  lemma AppendKeepsUrlsDistinct(arena: seq<PoolModule>, pool: seq<nat>, m: nat)
    requires InArena(arena, pool) && m < |arena| && DistinctUrls(arena, pool) && !Contains(arena, pool, m)
    ensures InArena(arena, pool + [m]) && DistinctUrls(arena, pool + [m])
  {
    var p := pool + [m];
    forall k, l | 0 <= k < l < |p| ensures Url(arena, p[k]) != Url(arena, p[l]) {
      if l == |pool| {
        assert p[k] == pool[k];
      } else {
        assert p[k] == pool[k] && p[l] == pool[l];
      }
    }
  }

  lemma {:induction false} InsertKeepsUrlsDistinct(arena: seq<PoolModule>, pool: seq<nat>, m: nat, fuel: nat)
    requires ValidArena(arena) && InArena(arena, pool) && m < |arena|
    ensures var r := Insert(arena, pool, m, fuel, true);
            r.Some? && DistinctUrls(arena, pool) ==> DistinctUrls(arena, r.value.1)
    decreases fuel, 0, 0
  {
    var r := Insert(arena, pool, m, fuel, true);
    if r.Some? && DistinctUrls(arena, pool) && !Contains(arena, pool, m) {
      if !arena[m].config.isFetched {
        AppendKeepsUrlsDistinct(arena, pool, m);
      } else {
        InsertAllKeepsUrlsDistinct(arena, pool, arena[m].subs, fuel - 1);
        var inserted := InsertAll(arena, pool, arena[m].subs, fuel - 1, true).value;
        if !Contains(arena, inserted, m) {
          AppendKeepsUrlsDistinct(arena, inserted, m);
        }
      }
    }
  }

  lemma {:induction false} InsertAllKeepsUrlsDistinct(arena: seq<PoolModule>, pool: seq<nat>, subs: seq<nat>, fuel: nat)
    requires ValidArena(arena) && InArena(arena, pool)
    requires forall j :: 0 <= j < |subs| ==> subs[j] < |arena|
    ensures var r := InsertAll(arena, pool, subs, fuel, true);
            r.Some? && DistinctUrls(arena, pool) ==> DistinctUrls(arena, r.value)
    decreases fuel, 1, |subs|
  {
    if |subs| > 0 && DistinctUrls(arena, pool) {
      InsertKeepsUrlsDistinct(arena, pool, subs[0], fuel);
      var first := Insert(arena, pool, subs[0], fuel, true);
      if first.Some? {
        InsertAllKeepsUrlsDistinct(arena, first.value.1, subs[1..], fuel);
      }
    }
  }

  /** For a module that is not fetched there are no submodules to insert, so
      the two versions agree. */
  lemma AddUnfetchedIsAddUnique(arena: seq<PoolModule>, pool: seq<nat>, m: nat, fuel: nat)
    requires ValidArena(arena) && InArena(arena, pool) && m < |arena| && !arena[m].config.isFetched
    ensures Add(arena, pool, m, fuel) == AddUnique(arena, pool, m, fuel)
  {
  }

  function Remote(url: string, fetched: bool, subs: seq<nat>): PoolModule {
    PoolModule(NewModuleConfig().(source := Some("git"), url := Some(url), isFetched := fetched), None, None, subs)
  }

  /** Module A (fetched) lists module C (fetched), whose manifest refers back
      to A's URL with a module object that is not fetched. */
  function LoopBack(): seq<PoolModule> {
    [Remote("a", true, [1]), Remote("c", true, [2]), Remote("a", false, [])]
  }

  lemma LoopBackValid()
    ensures ValidArena(LoopBack())
  {
  }

  /** A and its copy share a URL that C does not have. */
  lemma LoopBackUrls()
    ensures ValidArena(LoopBack())
    ensures !Contains(LoopBack(), [], 0) && !Contains(LoopBack(), [], 1) && !Contains(LoopBack(), [], 2)
    ensures !Contains(LoopBack(), [2], 1)
  {
    LoopBackValid();
    var arena := LoopBack();
    assert Url(arena, 2) == Some("a") && Url(arena, 1) == Some("c");
    assert "a" != "c" by {
      assert "a"[0] != "c"[0];
    }
    forall k | 0 <= k < |[2]|
      ensures Url(arena, [2][k]) != Url(arena, 1)
    {
      assert [2][k] == 2;
    }
  }

  lemma LoopBackSecond(recheck: bool)
    ensures ValidArena(LoopBack())
    ensures Insert(LoopBack(), [], 1, 1, recheck) == Some((true, [2, 1]))
  {
    LoopBackUrls();
    var arena := LoopBack();
    assert arena[1].subs == [2] && arena[1].config.isFetched && !arena[2].config.isFetched;
    InsertOneLevel(arena, 1, 2, recheck);
  }

  /** In that arena, inserting C into an empty pool puts the unfetched copy
      of A first, with or without the second URL check. */
  lemma LoopBackSubmodules(recheck: bool)
    ensures ValidArena(LoopBack())
    ensures InsertAll(LoopBack(), [], [1], 1, recheck) == Some([2, 1])
  {
    LoopBackSecond(recheck);
    var arena := LoopBack();
    assert [1][1..] == [];
    assert InsertAll(arena, [2, 1], [], 1, recheck) == Some([2, 1]);
  }

  /** `_add(A)` then appends A itself: two modules of the pool share A's URL. */
  lemma AddCanDuplicateUrl()
    ensures ValidArena(LoopBack())
    ensures Add(LoopBack(), [], 0, 2) == Some((true, [2, 1, 0]))
    ensures !DistinctUrls(LoopBack(), [2, 1, 0])
  {
    var arena := LoopBack();
    LoopBackSubmodules(false);
    assert arena[0].subs == [1];
    assert !Contains(arena, [], 0);
    assert Insert(arena, [], 0, 2, false) == Some((true, [2, 1] + [0]));
    assert [2, 1] + [0] == [2, 1, 0];
    assert Url(arena, [2, 1, 0][0]) == Url(arena, [2, 1, 0][2]);
  }

  /** With the second URL check, A is not appended next to its copy. */
  lemma AddUniqueSkipsLoopBack()
    ensures ValidArena(LoopBack())
    ensures AddUnique(LoopBack(), [], 0, 2) == Some((false, [2, 1]))
  {
    var arena := LoopBack();
    LoopBackSubmodules(true);
    assert arena[0].subs == [1];
    assert !Contains(arena, [], 0);
    assert Contains(arena, [2, 1], 0) by {
      assert Url(arena, [2, 1][0]) == Url(arena, 0);
    }
  }

  /** A fetched module that lists itself as a submodule is never inserted,
      with or without the second URL check: the recursion does not end. */
  lemma {:induction false} InsertDivergesOnSelfReference(fuel: nat, recheck: bool)
    ensures Insert([Remote("a", true, [0])], [], 0, fuel, recheck) == None
  {
    var arena := [Remote("a", true, [0])];
    assert !Contains(arena, [], 0);
    if fuel > 0 {
      InsertDivergesOnSelfReference(fuel - 1, recheck);
      assert InsertAll(arena, [], [0], fuel - 1, recheck) == None;
    }
  }

  lemma AddDivergesOnSelfReference(fuel: nat)
    ensures Add([Remote("a", true, [0])], [], 0, fuel) == None
    ensures AddUnique([Remote("a", true, [0])], [], 0, fuel) == None
  {
    InsertDivergesOnSelfReference(fuel, false);
    InsertDivergesOnSelfReference(fuel, true);
  }

  // ---------------------------------------------------------------------
  // The action's state

  /** What the selected tool answers: the file classes it parses, the file
      classes it uses without parsing, and its standard libraries. */
  datatype Tool = Tool(parseableKinds: seq<FileKind>, privativeKinds: seq<FileKind>, standardLibs: seq<string>)

  /** The attributes of an `Action` the core reads and writes. */
  datatype Action = Action(
    arena: seq<PoolModule>,
    manifests: seq<nat>,
    config: Manifest,
    tool: Option<Tool>,
    topEntity: Value,
    parseable: FileSet,
    privative: FileSet,
    depsSolved: bool)

  predicate ValidAction(a: Action) {
    ValidArena(a.arena) && InArena(a.arena, a.manifests)
  }

  /** `new_module`: the module object `m` has been built by the caller; it is
      added with `_add` as written unless its URL is already in the pool, the
      solved flag is cleared and `m` is returned either way. */
  function NewModule(a: Action, m: nat, fuel: nat): (r: Option<(Action, nat)>)
    requires ValidAction(a) && m < |a.arena|
    ensures r.Some? ==> ValidAction(r.value.0) && r.value.1 == m && !r.value.0.depsSolved
    ensures r.Some? ==> r.value.0.arena == a.arena && Prefix(a.manifests, r.value.0.manifests)
    ensures r.Some? ==> Contains(a.arena, r.value.0.manifests, m)
    ensures r.Some? && Contains(a.arena, a.manifests, m) ==> r.value.0.manifests == a.manifests
    ensures !a.arena[m].config.isFetched ==>
              r.Some? && r.value.0.manifests == (if Contains(a.arena, a.manifests, m) then a.manifests else a.manifests + [m])
    ensures r.Some? && !a.arena[m].config.isFetched && DistinctUrls(a.arena, a.manifests) ==>
              DistinctUrls(r.value.0.arena, r.value.0.manifests)
  {
    var cleared := a.(depsSolved := false);
    if Contains(a.arena, a.manifests, m) then Some((cleared, m))
    else
      assert !a.arena[m].config.isFetched && DistinctUrls(a.arena, a.manifests) ==>
               Add(a.arena, a.manifests, m, fuel).Some? && DistinctUrls(a.arena, Add(a.arena, a.manifests, m, fuel).value.1) by {
        if !a.arena[m].config.isFetched {
          AddUnfetchedIsAddUnique(a.arena, a.manifests, m, fuel);
        }
      }
      match Add(a.arena, a.manifests, m, fuel)
      case None => None
      case Some((_, pool)) => Some((cleared.(manifests := pool), m))
  }

  /** An action whose pool is empty, over the module objects of `arena`. */
  function EmptyAction(arena: seq<PoolModule>): (a: Action)
    ensures a.arena == arena && a.manifests == [] && !a.depsSolved
  {
    Action(arena, [], map[], None, NoneVal, {}, {}, false)
  }

  /** `new_module` of a fetched module does not keep URLs distinct: on the
      loop-back arena the pool gains two modules with A's URL. */
  lemma NewModuleCanDuplicateUrl()
    ensures ValidAction(EmptyAction(LoopBack()))
    ensures NewModule(EmptyAction(LoopBack()), 0, 2) == Some((EmptyAction(LoopBack()).(manifests := [2, 1, 0]), 0))
    ensures DistinctUrls(LoopBack(), []) && !DistinctUrls(LoopBack(), [2, 1, 0])
  {
    AddCanDuplicateUrl();
    LoopBackUrls();
  }

  // ---------------------------------------------------------------------
  // Merged configuration

  predicate HasKey(arena: seq<PoolModule>, m: nat, key: string)
    requires m < |arena|
  {
    arena[m].manifest.Some? && key in arena[m].manifest.value
  }

  /** `_get_config_dict`: each key takes its value from the earliest module of
      the pool whose manifest has it; modules without a manifest are skipped. */
  method ConfigDict(arena: seq<PoolModule>, pool: seq<nat>) returns (config: Manifest)
    requires InArena(arena, pool)
    ensures forall key :: key in config <==> exists i :: 0 <= i < |pool| && HasKey(arena, pool[i], key)
    ensures forall key :: key in config ==>
              exists i :: 0 <= i < |pool| && HasKey(arena, pool[i], key)
                          && config[key] == arena[pool[i]].manifest.value[key]
                          && forall j :: 0 <= j < i ==> !HasKey(arena, pool[j], key)
  {
    config := map[];
    var n := 0;
    while n < |pool|
      invariant 0 <= n <= |pool|
      invariant forall key :: key in config <==> exists i :: 0 <= i < n && HasKey(arena, pool[i], key)
      invariant forall key :: key in config ==>
                  exists i :: 0 <= i < n && HasKey(arena, pool[i], key)
                              && config[key] == arena[pool[i]].manifest.value[key]
                              && forall j :: 0 <= j < i ==> !HasKey(arena, pool[j], key)
    {
      var manifest := arena[pool[n]].manifest;
      if manifest.Some? {
        // `tmp.update(config)`: what is already merged wins over this manifest.
        config := manifest.value + config;
      }
      n := n + 1;
    }
  }

  /** `build_complete_file_set`: the union of the file sets of the pool's modules. */
  function CompleteFileSet(arena: seq<PoolModule>, pool: seq<nat>): (files: FileSet)
    requires InArena(arena, pool)
    ensures forall f :: f in files <==>
              exists k :: 0 <= k < |pool| && arena[pool[k]].files.Some? && f in arena[pool[k]].files.value
  {
    if |pool| == 0 then {}
    else
      var rest := CompleteFileSet(arena, pool[1..]);
      assert forall k :: 1 <= k < |pool| ==> pool[k] == pool[1..][k - 1];
      var arg := if arena[pool[0]].files.Some? then Files(arena[pool[0]].files.value) else NoFile;
      FileSetAdd(rest, arg).value
  }

  /** `isinstance(f, t)` for some class `t` of the list. */
  predicate IsAnyOf(k: FileKind, classes: seq<FileKind>) {
    exists i :: 0 <= i < |classes| && IsA(k, classes[i])
  }

  /** The classes parsed when no tool is selected. */
  const DefaultParseable: seq<FileKind> := [VHDL, Verilog, SV, IP, QSYS]

  /** Where `build_file_set` puts one file: parseable, privative, or neither. */
  predicate GoesToParseable(tool: Option<Tool>, f: HdlFile) {
    match tool
    case None => IsAnyOf(f.kind, DefaultParseable)
    case Some(t) => IsAnyOf(f.kind, t.parseableKinds)
  }

  predicate GoesToPrivative(tool: Option<Tool>, f: HdlFile) {
    match tool
    case None => !IsAnyOf(f.kind, DefaultParseable)
    case Some(t) => !IsAnyOf(f.kind, t.parseableKinds) && IsAnyOf(f.kind, t.privativeKinds)
  }

  /** `build_file_set`: adds each file of the complete file set to the
      parseable or the privative set. */
  function BuildFileSet(a: Action): (r: Action)
    requires ValidAction(a)
    ensures r.(parseable := a.parseable, privative := a.privative) == a
    ensures forall f :: f in r.parseable <==>
              (f in a.parseable || (f in CompleteFileSet(a.arena, a.manifests) && GoesToParseable(a.tool, f)))
    ensures forall f :: f in r.privative <==>
              (f in a.privative || (f in CompleteFileSet(a.arena, a.manifests) && GoesToPrivative(a.tool, f)))
  {
    var total := CompleteFileSet(a.arena, a.manifests);
    var parsed := set f | f in total && GoesToParseable(a.tool, f);
    var kept := set f | f in total && GoesToPrivative(a.tool, f);
    a.(parseable := a.parseable + parsed, privative := a.privative + kept)
  }

  /** Without a tool the VHDL, Verilog, SystemVerilog, IP and Qsys files are
      parseable and every other file is privative; with a tool a file both
      parseable and privative is parseable, and a file of neither kind is
      dropped. */
  lemma BuildFileSetSplit(a: Action, f: HdlFile)
    requires ValidAction(a) && f in CompleteFileSet(a.arena, a.manifests)
    requires f !in a.parseable && f !in a.privative
    ensures a.tool.None? ==>
              (f in BuildFileSet(a).parseable <==> f.kind in {VHDL, Verilog, SV, IP, QSYS})
              && (f in BuildFileSet(a).privative <==> f.kind !in {VHDL, Verilog, SV, IP, QSYS})
    ensures a.tool.Some? && IsAnyOf(f.kind, a.tool.value.parseableKinds) ==>
              f in BuildFileSet(a).parseable && f !in BuildFileSet(a).privative
    ensures a.tool.Some? && !IsAnyOf(f.kind, a.tool.value.parseableKinds) && !IsAnyOf(f.kind, a.tool.value.privativeKinds) ==>
              f !in BuildFileSet(a).parseable && f !in BuildFileSet(a).privative
  {
    DefaultParseableKinds(f.kind);
  }

  /** The default classes cover exactly the five HDL-like kinds. */
  lemma DefaultParseableKinds(k: FileKind)
    ensures IsAnyOf(k, DefaultParseable) <==> k in {VHDL, Verilog, SV, IP, QSYS}
  {
    if k in {VHDL, Verilog, SV, IP, QSYS} {
      var i := if k == VHDL then 0 else if k == Verilog then 1 else if k == SV then 2
               else if k == IP then 3 else 4;
      assert IsA(k, DefaultParseable[i]);
    }
  }

  // ---------------------------------------------------------------------
  // Solving

  /** The arguments `dep_solver.solve` is called with. */
  datatype SolverCall = SolverCall(files: FileSet, standardLibs: seq<string>, action: Value)

  /** `list.extend(value)`: a list adds its items, a string its characters. */
  function ExtendItems(v: Value): seq<string> {
    match v
    case Strs(items) => items
    case Str(s) => seq(|s|, i requires 0 <= i < |s| => [s[i]])
    case NoneVal => []
  }

  /** `solve_file_set`: the solver runs only while the flag is clear, with the
      manifest's standard libraries followed by the tool's; with `all_files`
      the parseable set stays as it is, otherwise it becomes the files the top
      entity needs (`dependencySet`, computed by the solver's collaborator). */
  function SolveFileSet(a: Action, allFiles: bool, dependencySet: FileSet): (r: (Action, Option<SolverCall>))
    ensures r.0.depsSolved
    ensures r.1.Some? <==> !a.depsSolved
    ensures r.1.Some? ==> r.1.value.files == a.parseable
                          && r.1.value.action == Get(a.config, "action")
                          && r.1.value.standardLibs ==
                               ExtendItems(Get(a.config, "standard_libs"))
                               + (if a.tool.Some? then a.tool.value.standardLibs else [])
    ensures allFiles ==> r.0 == a.(depsSolved := true)
    ensures !allFiles ==> r.0 == a.(depsSolved := true, parseable := dependencySet)
  {
    var call :=
      if a.depsSolved then None
      else
        var libs := ExtendItems(Get(a.config, "standard_libs")) + (if a.tool.Some? then a.tool.value.standardLibs else []);
        Some(SolverCall(a.parseable, libs, Get(a.config, "action")));
    var solved := a.(depsSolved := true);
    if allFiles then (solved, call) else (solved.(parseable := dependencySet), call)
  }

  /** The solver runs at most once until `new_module` clears the flag. */
  lemma SolverRunsOnceUntilNewModule(a: Action, allFiles: bool, deps: FileSet, m: nat, fuel: nat)
    requires ValidAction(a) && m < |a.arena|
    ensures var (once, _) := SolveFileSet(a, allFiles, deps);
            SolveFileSet(once, allFiles, deps).1.None?
    ensures var (once, _) := SolveFileSet(a, allFiles, deps);
            ValidAction(once) && m < |once.arena| && NewModule(once, m, fuel).Some? ==>
              SolveFileSet(NewModule(once, m, fuel).value.0, allFiles, deps).1.Some?
  {
  }

  // ---------------------------------------------------------------------
  // Dispatch

  /** Which tool loader `run` calls, and with which tool name. */
  datatype ToolChoice = NoTool | SimulationTool(name: Value) | SynthesisTool(name: Value)

  datatype RunOutcome = RunOutcome(tool: ToolChoice, topEntity: Value, config: Manifest)

  /** `a or b` */
  function Or(a: Value, b: Value): Value {
    if Truthy(a) then a else b
  }

  /** `run`: no action selects no tool and the top module; simulation and
      synthesis need their tool variable, take their own top (falling back to
      the top module) and write it back; any other action is an error. */
  function Run(config: Manifest): (r: Result<RunOutcome>)
    ensures Get(config, "action") == NoneVal ==>
              r == Ok(RunOutcome(NoTool, Get(config, "top_module"), config))
    ensures Get(config, "action") == Str("simulation") ==>
              && (r.Err? <==> Get(config, "sim_tool") == NoneVal)
              && (r.Ok? ==> && r.value.tool == SimulationTool(Get(config, "sim_tool"))
                            && r.value.topEntity == Or(Get(config, "sim_top"), Get(config, "top_module"))
                            && r.value.config == config["sim_top" := r.value.topEntity])
    ensures Get(config, "action") == Str("synthesis") ==>
              && (r.Err? <==> Get(config, "syn_tool") == NoneVal)
              && (r.Ok? ==> && r.value.tool == SynthesisTool(Get(config, "syn_tool"))
                            && r.value.topEntity == Or(Get(config, "syn_top"), Get(config, "top_module"))
                            && r.value.config == config["syn_top" := r.value.topEntity])
    ensures Get(config, "action") !in {NoneVal, Str("simulation"), Str("synthesis")} ==> r.Err?
  {
    var action := Get(config, "action");
    if action == NoneVal then Ok(RunOutcome(NoTool, Get(config, "top_module"), config))
    else if action == Str("simulation") then
      var tool := Get(config, "sim_tool");
      if tool == NoneVal then Err("'sim_tool' variable is not defined")
      else
        var top := Or(Get(config, "sim_top"), Get(config, "top_module"));
        Ok(RunOutcome(SimulationTool(tool), top, config["sim_top" := top]))
    else if action == Str("synthesis") then
      var tool := Get(config, "syn_tool");
      if tool == NoneVal then Err("'syn_tool' variable is not defined")
      else
        var top := Or(Get(config, "syn_top"), Get(config, "top_module"));
        Ok(RunOutcome(SynthesisTool(tool), top, config["syn_top" := top]))
    else Err("Unknown requested action")
  }

  /** Running again on the configuration `run` wrote back gives the same outcome. */
  lemma RunIdempotent(config: Manifest)
    requires Run(config).Ok?
    ensures Run(Run(config).value.config) == Run(config)
  {
    var out := Run(config).value;
    var c := out.config;
    if Get(config, "action") == Str("simulation") {
      assert Get(c, "sim_top") == out.topEntity;
      assert Get(c, "top_module") == Get(config, "top_module");
      assert c["sim_top" := out.topEntity] == c;
    } else if Get(config, "action") == Str("synthesis") {
      assert Get(c, "syn_top") == out.topEntity;
      assert Get(c, "top_module") == Get(config, "top_module");
      assert c["syn_top" := out.topEntity] == c;
    }
  }

  /** The merged configuration keeps the manifest's `action` as written, while
      a module lower-cases its own copy: an action spelt "Simulation" is
      accepted by the module and refused by `run`. */
  lemma RunRefusesCapitalisedAction()
    ensures var manifest := map["action" := Str("Simulation"), "sim_tool" := Str("ghdl")];
            && ProcessManifestUniversal(NewCoreModule(), manifest, None).value.action == Some("simulation")
            && Run(manifest).Err?
  {
    var manifest := map["action" := Str("Simulation"), "sim_tool" := Str("ghdl")];
    assert ToLower("Simulation") == "simulation";
    assert Str("Simulation") != Str("simulation") by {
      assert "Simulation"[0] != "simulation"[0];
    }
    assert Str("Simulation") != Str("synthesis") by {
      assert "Simulation"[1] != "synthesis"[1];
    }
  }
}
