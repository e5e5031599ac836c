/** Module configuration: where a module lives and whether it is fetched, the
    check of manifest paths, and the library and action a manifest sets
    (hdlmake/module/core.py). */
module ModuleCore {
  import opened Results
  import opened Strings

  /** A manifest value: a string, a list of strings, or `None`. */
  datatype Value = Str(s: string) | Strs(items: seq<string>) | NoneVal

  /** A manifest dictionary: option names to values. */
  type Manifest = map<string, Value>

  /** Python truthiness of a value. */
  predicate Truthy(v: Value) {
    match v
    case Str(s) => s != ""
    case Strs(items) => |items| > 0
    case NoneVal => false
  }

  /** `dict.get(key)`: `None` for a missing key. */
  function Get(m: Manifest, key: string): (v: Value)
    ensures key !in m ==> v == NoneVal
    ensures key in m ==> v == m[key]
  {
    if key in m then m[key] else NoneVal
  }

  /** `ModuleConfig`: the parent is a reference (an index) to another module. */
  datatype ModuleConfig = ModuleConfig(
    source: Option<string>,
    parent: Option<nat>,
    url: Option<string>,
    branch: Option<string>,
    revision: Option<string>,
    path: Option<string>,
    isFetched: bool,
    libraryOverride: Option<string>)

  function NewModuleConfig(): ModuleConfig {
    ModuleConfig(None, None, None, None, None, None, false, None)
  }

  /** The arguments a module is created with. */
  datatype ModuleArgs = ModuleArgs(parent: Option<nat>, url: string, source: Option<string>, fetchto: string)

  /** What `url_parse` (or `svn_parse`, which gives only url and revision)
      makes of the module's URL. */
  datatype ParsedUrl = ParsedUrl(url: string, branch: Option<string>, revision: Option<string>, libraryOverride: Option<string>)

  /** The questions asked of the filesystem: `os.path.exists`, a non-empty
      `os.listdir`, `os.path.isdir`. `hasEntries` is only meaningful for a
      directory: `os.listdir` raises on a regular file, which is not modelled. */
  datatype Disk = Disk(present: string -> bool, hasEntries: string -> bool, isDir: string -> bool)

  /** Path arithmetic of the host: `relpath(abspath(p))`, `relpath(p)` and
      `rel2abs(p, base)`. */
  datatype PathOps = PathOps(normalise: string -> string, relPath: string -> string, rel2abs: (string, string) -> string)

  /** `os.path.join(a, b)` */
  function PathJoin(a: string, b: string): string {
    if StartsWith(b, "/") then b
    else if a == "" || a[|a| - 1] == '/' then a + b
    else a + "/" + b
  }

  /** The directory name of a remote module: its basename, suffixed with
      `-override` when a non-empty library override is set. */
  function CheckoutName(basename: string, libraryOverride: Option<string>): string {
    if libraryOverride.Some? && libraryOverride.value != "" then basename + "-" + libraryOverride.value
    else basename
  }

  /** `init_config`. A module that is not local gets the URL, branch,
      revision and library override `url_parse` finds (URL and revision for
      svn) and the path `fetchto/<checkout name>`; it is fetched exactly when
      that path exists and is not empty. Either way the log message reads the
      parent's path, so a module that is not local and has no parent raises.
      A local module keeps its URL, has no branch or revision, must exist and
      is fetched. */
  function InitConfig(cfg: ModuleConfig, args: ModuleArgs, parsed: ParsedUrl, basename: string,
                      disk: Disk, ops: PathOps): (r: Result<ModuleConfig>)
    ensures r.Ok? ==> r.value.source == args.source && r.value.parent == args.parent && r.value.path.Some?
    ensures args.source != Some("local") ==> (r.Ok? <==> args.parent.Some?)
    ensures args.source != Some("local") && r.Ok? ==>
              && r.value.url == Some(parsed.url)
              && r.value.revision == parsed.revision
              && r.value.path == Some(ops.normalise(PathJoin(args.fetchto, CheckoutName(basename, r.value.libraryOverride))))
              && (r.value.isFetched <==> disk.present(r.value.path.value) && disk.hasEntries(r.value.path.value))
    ensures args.source != Some("local") && args.source != Some("svn") && r.Ok? ==>
              r.value.branch == parsed.branch && r.value.libraryOverride == parsed.libraryOverride
    ensures args.source == Some("svn") && r.Ok? ==>
              r.value.branch == cfg.branch && r.value.libraryOverride == cfg.libraryOverride
    ensures args.source == Some("local") ==>
              && (r.Ok? <==> disk.present(args.url))
              && (r.Ok? ==> && r.value.url == Some(args.url) && r.value.branch.None? && r.value.revision.None?
                            && r.value.isFetched && r.value.path == Some(ops.relPath(args.url)))
  {
    var c := cfg.(source := args.source, parent := args.parent);
    if args.source != Some("local") then
      var c := if args.source == Some("svn") then c.(url := Some(parsed.url), revision := parsed.revision)
               else c.(url := Some(parsed.url), branch := parsed.branch, revision := parsed.revision,
                       libraryOverride := parsed.libraryOverride);
      var path := ops.normalise(PathJoin(args.fetchto, CheckoutName(basename, c.libraryOverride)));
      if args.parent.None? then Err("'NoneType' object has no attribute 'path'")
      else Ok(c.(path := Some(path), isFetched := disk.present(path) && disk.hasEntries(path)))
    else
      var c := c.(url := Some(args.url), branch := None, revision := None);
      if !disk.present(args.url) then Err("Path to the local module doesn't exist: " + args.url)
      else Ok(c.(path := Some(ops.relPath(args.url)), isFetched := true))
  }

  /** The path of a module that is not local is fixed before fetching: it
      does not depend on what is on disk. */
  lemma RemotePathIndependentOfDisk(cfg: ModuleConfig, args: ModuleArgs, parsed: ParsedUrl, basename: string,
                                    d1: Disk, d2: Disk, ops: PathOps)
    requires args.source != Some("local")
    ensures InitConfig(cfg, args, parsed, basename, d1, ops).Ok? == InitConfig(cfg, args, parsed, basename, d2, ops).Ok?
    ensures InitConfig(cfg, args, parsed, basename, d1, ops).Ok? ==>
              InitConfig(cfg, args, parsed, basename, d1, ops).value.path
              == InitConfig(cfg, args, parsed, basename, d2, ops).value.path
  {
  }

  /** The arguments `load_top_manifest` passes to `new_module`: no parent, no
      source, fetched into the current directory. Such a module counts as
      remote, and the log call of either remote branch reads the missing
      parent's path, so `init_config` raises whatever is on disk. */
  lemma RemoteModuleWithoutParentRaises(cfg: ModuleConfig, url: string, parsed: ParsedUrl, basename: string,
                                        disk: Disk, ops: PathOps)
    ensures InitConfig(cfg, ModuleArgs(None, url, None, "."), parsed, basename, disk, ops).Err?
    ensures forall p: nat :: InitConfig(cfg, ModuleArgs(Some(p), url, None, "."), parsed, basename, disk, ops).Ok?
  {
  }

  /** Two library overrides give two checkout directories of the same basename. */
  lemma OverrideSeparatesCheckouts(basename: string, o1: string, o2: string)
    requires o1 != "" && o2 != "" && o1 != o2
    ensures CheckoutName(basename, Some(o1)) != CheckoutName(basename, Some(o2))
    ensures CheckoutName(basename, Some(o1)) != CheckoutName(basename, None)
  {
    var n1 := CheckoutName(basename, Some(o1));
    var n2 := CheckoutName(basename, Some(o2));
    assert n1[|basename| + 1..] == o1;
    assert n2[|basename| + 1..] == o2;
  }

  /** `path_mod.is_abs_path` */
  predicate IsAbsPath(p: string) {
    StartsWith(p, "/")
  }

  /** `_check_filepath`: an empty path is accepted, an absolute path is
      rejected, a relative path must exist below the module (a directory is
      accepted too). */
  function CheckFilepath(modPath: string, filepath: string, disk: Disk): (r: Result<bool>)
    ensures filepath == "" ==> r == Ok(true)
    ensures filepath != "" && IsAbsPath(filepath) ==> r == Ok(false)
    ensures filepath != "" && !IsAbsPath(filepath) ==>
              (r.Ok? <==> disk.present(PathJoin(modPath, filepath))) && (r.Ok? ==> r.value)
  {
    if filepath == "" then Ok(true)
    else if IsAbsPath(filepath) then Ok(false)
    else if !disk.present(PathJoin(modPath, filepath)) then Err("Path specified in manifest doesn't exist: " + filepath)
    else Ok(true)
  }

  /** The absolute paths of the accepted entries, in input order, or the first error. */
  function KeptPaths(modPath: string, paths: seq<string>, disk: Disk, ops: PathOps): Result<seq<string>>
  {
    if |paths| == 0 then Ok([])
    else match CheckFilepath(modPath, paths[0], disk)
      case Err(e) => Err(e)
      case Ok(keep) =>
        match KeptPaths(modPath, paths[1..], disk, ops)
        case Err(e) => Err(e)
        case Ok(rest) => Ok((if keep then [ops.rel2abs(paths[0], modPath)] else []) + rest)
  }

  /** The entries `_check_filepath` accepts. */
  predicate Accepted(modPath: string, p: string, disk: Disk) {
    CheckFilepath(modPath, p, disk) == Ok(true)
  }

  /** `_make_list_of_paths` fails exactly when some entry is a relative path
      that does not exist; otherwise it keeps the accepted entries, in order,
      made absolute. */
  method MakeListOfPaths(modPath: string, paths: seq<string>, disk: Disk, ops: PathOps) returns (r: Result<seq<string>>)
    ensures r.Err? <==> exists i :: 0 <= i < |paths| && CheckFilepath(modPath, paths[i], disk).Err?
    ensures r.Ok? ==> r == KeptPaths(modPath, paths, disk, ops)
    ensures r.Ok? ==> |r.value| <= |paths|
    ensures r.Ok? ==> forall q :: q in r.value ==>
              exists i :: 0 <= i < |paths| && Accepted(modPath, paths[i], disk) && q == ops.rel2abs(paths[i], modPath)
  {
    var kept: seq<string> := [];
    var i := 0;
    assert paths[i..] == paths;
    PrependNothing(KeptPaths(modPath, paths, disk, ops));
    while i < |paths|
      invariant 0 <= i <= |paths|
      invariant forall j :: 0 <= j < i ==> CheckFilepath(modPath, paths[j], disk).Ok?
      invariant |kept| <= i
      invariant KeptPaths(modPath, paths, disk, ops) == PrependKept(kept, KeptPaths(modPath, paths[i..], disk, ops))
      invariant forall q :: q in kept ==>
                  exists j :: 0 <= j < i && Accepted(modPath, paths[j], disk) && q == ops.rel2abs(paths[j], modPath)
    {
      var check := CheckFilepath(modPath, paths[i], disk);
      if check.Err? {
        return Err(check.msg);
      }
      assert paths[i..][1..] == paths[i + 1..];
      var tail := KeptPaths(modPath, paths[i + 1..], disk, ops);
      var here := if check.value then [ops.rel2abs(paths[i], modPath)] else [];
      assert KeptPaths(modPath, paths[i..], disk, ops) == PrependKept(here, tail);
      PrependTwice(kept, here, tail);
      kept := kept + here;
      i := i + 1;
    }
    assert paths[i..] == [];
    assert kept + [] == kept;
    return Ok(kept);
  }

  function PrependKept(kept: seq<string>, r: Result<seq<string>>): Result<seq<string>> {
    match r
    case Err(e) => Err(e)
    case Ok(rest) => Ok(kept + rest)
  }

  lemma PrependNothing(r: Result<seq<string>>)
    ensures PrependKept([], r) == r
  {
    if r.Ok? {
      assert [] + r.value == r.value;
    }
  }

  lemma PrependTwice(a: seq<string>, b: seq<string>, r: Result<seq<string>>)
    ensures PrependKept(a, PrependKept(b, r)) == PrependKept(a + b, r)
  {
    if r.Ok? {
      assert a + (b + r.value) == (a + b) + r.value;
    }
  }

  /** `ModuleCore`: the module configuration with the universal manifest
      properties. */
  datatype CoreModule = CoreModule(config: ModuleConfig, library: Value, action: Option<string>)

  function NewCoreModule(): CoreModule {
    CoreModule(NewModuleConfig(), Str("work"), None)
  }

  /** A fresh module has every configuration attribute unset, is not fetched,
      is in library "work" and has no action. */
  lemma NewCoreModuleDefaults()
    ensures var m := NewCoreModule();
            && m.config.source.None? && m.config.parent.None? && m.config.url.None?
            && m.config.branch.None? && m.config.revision.None? && m.config.path.None?
            && !m.config.isFetched && m.config.libraryOverride.None?
            && m.library == Str("work") && m.action.None?
  {
  }

  /** `_process_manifest_universal`: the library is the override, else the
      manifest's `library`, else the parent's library, else unchanged; the
      action is the manifest's `action` lower-cased (an error when it is not
      a string). */
  function ProcessManifestUniversal(m: CoreModule, manifest: Manifest, parentLibrary: Option<Value>): (r: Result<CoreModule>)
    ensures r.Err? <==> "action" in manifest && !manifest["action"].Str?
    ensures r.Ok? ==> r.value.config == m.config
    ensures r.Ok? && m.config.libraryOverride.Some? ==> r.value.library == Str(m.config.libraryOverride.value)
    ensures r.Ok? && m.config.libraryOverride.None? && "library" in manifest ==> r.value.library == manifest["library"]
    ensures r.Ok? && m.config.libraryOverride.None? && "library" !in manifest && parentLibrary.Some? ==>
              r.value.library == parentLibrary.value
    ensures r.Ok? && m.config.libraryOverride.None? && "library" !in manifest && parentLibrary.None? ==>
              r.value.library == m.library
    ensures r.Ok? && "action" in manifest ==> r.value.action == Some(ToLower(manifest["action"].s))
    ensures r.Ok? && "action" !in manifest ==> r.value.action == m.action
  {
    var library :=
      if m.config.libraryOverride.Some? then Str(m.config.libraryOverride.value)
      else if "library" in manifest then manifest["library"]
      else if parentLibrary.Some? then parentLibrary.value
      else m.library;
    if "action" in manifest then
      match manifest["action"]
      case Str(a) => Ok(m.(library := library, action := Some(ToLower(a))))
      case _ => Err("'action' is not a string")
    else Ok(m.(library := library))
  }

  /** Processing the same manifest again changes nothing. */
  lemma ProcessManifestIdempotent(m: CoreModule, manifest: Manifest, parentLibrary: Option<Value>)
    requires ProcessManifestUniversal(m, manifest, parentLibrary).Ok?
    ensures var once := ProcessManifestUniversal(m, manifest, parentLibrary).value;
            ProcessManifestUniversal(once, manifest, parentLibrary) == Ok(once)
  {
    if "action" in manifest {
      ToLowerIdempotent(manifest["action"].s);
    }
  }

  /** A chain of fresh modules, none with an override or a `library` key,
      all end up in the library of the first module's parent. */
  function ProcessChain(parentLibrary: Value, manifests: seq<Manifest>): Result<Value>
    decreases |manifests|
  {
    if |manifests| == 0 then Ok(parentLibrary)
    else match ProcessManifestUniversal(NewCoreModule(), manifests[0], Some(parentLibrary))
      case Err(e) => Err(e)
      case Ok(m) => ProcessChain(m.library, manifests[1..])
  }

  lemma {:induction false} LibraryInheritedDownChain(rootLibrary: Value, manifests: seq<Manifest>)
    requires forall k :: 0 <= k < |manifests| ==>
               "library" !in manifests[k] && ("action" in manifests[k] ==> manifests[k]["action"].Str?)
    ensures ProcessChain(rootLibrary, manifests) == Ok(rootLibrary)
  {
    if |manifests| > 0 {
      LibraryInheritedDownChain(rootLibrary, manifests[1..]);
    }
  }
}
