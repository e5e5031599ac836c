/** Dependency relations between HDL design units and the dependency level
    of a file in the graph of files (hdlmake/dep_file.py). */
module DepFiles {
  import opened Results
  import opened Strings

  // The integer codes the source uses for directions and relation kinds.
  const PROVIDE: int := 1
  const USE: int := 2
  const ENTITY: int := 1
  const PACKAGE: int := 2
  const INCLUDE: int := 3
  const ARCHITECTURE: int := 4
  /** A Verilog module is the same kind of unit as a VHDL entity. */
  const MODULE: int := ENTITY

  datatype Direction = Provide | Use
  datatype RelType = Entity | Package | Include | Architecture

  /** Two relations are equal exactly when all three attributes are equal,
      which is the source's `__eq__` on `__dict__`. */
  datatype DepRelation = DepRelation(direction: Direction, relType: RelType, objName: string)

  function DirectionCode(d: Direction): int {
    match d
    case Provide => PROVIDE
    case Use => USE
  }

  function RelTypeCode(k: RelType): int {
    match k
    case Entity => ENTITY
    case Package => PACKAGE
    case Include => INCLUDE
    case Architecture => ARCHITECTURE
  }

  /** `DepRelation.__init__` once the codes are known to be valid: the name is
      stored lower-cased. */
  function NewRelation(name: string, direction: Direction, relType: RelType): (r: DepRelation)
    ensures r.direction == direction && r.relType == relType
    ensures |r.objName| == |name|
    ensures forall i :: 0 <= i < |r.objName| ==> !IsUpper(r.objName[i])
  {
    DepRelation(direction, relType, ToLower(name))
  }

  /** `DepRelation.__init__` on the integer codes: an assertion fails unless
      the direction is PROVIDE or USE and the kind is one of the four kinds. */
  function MakeRelation(name: string, direction: int, relType: int): (r: Result<DepRelation>)
    ensures r.Ok? <==> (direction == PROVIDE || direction == USE) && 1 <= relType <= 4
    ensures r.Ok? ==> DirectionCode(r.value.direction) == direction
                      && RelTypeCode(r.value.relType) == relType
                      && r.value.objName == ToLower(name)
  {
    if direction != PROVIDE && direction != USE then Err("assertion: unknown direction")
    else if relType !in {ENTITY, PACKAGE, INCLUDE, ARCHITECTURE, MODULE} then Err("assertion: unknown relation type")
    else
      var d := if direction == PROVIDE then Provide else Use;
      var k := if relType == ENTITY then Entity
               else if relType == PACKAGE then Package
               else if relType == INCLUDE then Include
               else Architecture;
      Ok(NewRelation(name, d, k))
  }

  /** Encoding a direction and kind and constructing from the codes gives the
      relation back; the MODULE code builds the same relation as ENTITY. */
  lemma MakeRelationOfCodes(name: string, d: Direction, k: RelType)
    ensures MakeRelation(name, DirectionCode(d), RelTypeCode(k)) == Ok(NewRelation(name, d, k))
    ensures MakeRelation(name, DirectionCode(d), MODULE) == Ok(NewRelation(name, d, Entity))
  {
  }

  /** Relations built from names that differ only in letter case are equal,
      and only those. */
  lemma NewRelationIgnoresCase(a: string, b: string, d: Direction, k: RelType)
    ensures NewRelation(a, d, k) == NewRelation(b, d, k) <==> ToLower(a) == ToLower(b)
  {
  }

  const VerilogInstPrefix: string := "verilog_inst."

  /** A use of a Verilog instance whose target language is not known. */
  predicate IsVerilogInstance(b: DepRelation) {
    b.relType == Entity && StartsWith(b.objName, VerilogInstPrefix)
  }

  /** `DepRelation.satisfies`: does the provided relation `a` match the used
      relation `b`? */
  function Satisfies(a: DepRelation, b: DepRelation): (r: bool)
    ensures r ==> a.direction == Provide && b.direction == Use && a.relType == b.relType
    ensures a.direction == Provide && b.direction == Use && !IsVerilogInstance(b) ==>
              (r <==> a.relType == b.relType && a.objName == b.objName)
    ensures a.direction == Provide && b.direction == Use && IsVerilogInstance(b) ==>
              (r <==> a.relType == b.relType && AfterLast(a.objName, '.') == AfterLast(b.objName, '.'))
  {
    if b.direction == Provide || a.direction == Use then false
    else
      assert a.direction == Provide && b.direction == Use;
      var mine := if IsVerilogInstance(b) then AfterLast(a.objName, '.') else a.objName;
      var theirs := if IsVerilogInstance(b) then AfterLast(b.objName, '.') else b.objName;
      b.relType == a.relType && theirs == mine
  }

  /** Satisfaction is never mutual: only a PROVIDE satisfies, only a USE is satisfied. */
  lemma SatisfiesAsymmetric(a: DepRelation, b: DepRelation)
    ensures Satisfies(a, b) ==> !Satisfies(b, a)
  {
  }

  /** Every use is satisfied by the provision of the same unit under the same
      kind, including the Verilog-instance case. */
  lemma ProvisionSatisfiesUse(name: string, k: RelType)
    ensures Satisfies(NewRelation(name, Provide, k), NewRelation(name, Use, k))
  {
  }

  /** A Verilog instance use is satisfied by an entity of that name in any library. */
  lemma VerilogInstanceMatchesAnyLibrary(lib: string, unit: string)
    requires '.' !in lib && '.' !in unit
    ensures Satisfies(DepRelation(Provide, Entity, lib + "." + unit),
                      DepRelation(Use, Entity, VerilogInstPrefix + unit))
  {
    var p := lib + "." + unit;
    var u := VerilogInstPrefix + unit;
    assert u[..|VerilogInstPrefix|] == VerilogInstPrefix;
    AfterLastIsSuffix(p, '.');
    AfterLastIsSuffix(u, '.');
    SuffixAfterDot(p, lib, unit);
    SuffixAfterDot(u, "verilog_inst", unit);
  }

  /** The text after the last dot of `x + "." + y` is `y` when `y` has no dot. */
  lemma SuffixAfterDot(s: string, x: string, y: string)
    requires s == x + "." + y && '.' !in y
    ensures AfterLast(s, '.') == y
  {
    var r := AfterLast(s, '.');
    AfterLastIsSuffix(s, '.');
    assert s[|s| - |y| - 1] == '.';
    assert s[|s| - |y|..] == y;
  }

  /** `File.extension`: the text after the last dot of the path. */
  function Extension(path: string): (ext: string)
    ensures '.' !in ext && |ext| <= |path| && path[|path| - |ext|..] == ext
    ensures |ext| == |path| || path[|path| - |ext| - 1] == '.'
    ensures '.' !in path ==> ext == path
  {
    AfterLastIsSuffix(path, '.');
    AfterLast(path, '.')
  }

  /** A parseable file: its own relations, the files it depends on (indices into
      the list of files, in the order the source iterates its set) and whether
      its relations are known. Its `dep_level` is kept apart, in `Levels`,
      because it is the one attribute `get_dep_level` writes. */
  datatype DepFile = DepFile(filePath: string, rels: set<DepRelation>, dependsOn: seq<nat>, isParsed: bool)

  function NewDepFile(path: string): DepFile {
    DepFile(path, {}, [], false)
  }

  function AddRelation(f: DepFile, rel: DepRelation): (g: DepFile)
    ensures g.rels == f.rels + {rel}
  {
    f.(rels := f.rels + {rel})
  }

  /** `DepFile.satisfies`: some relation of the file satisfies `b`. */
  predicate FileSatisfies(f: DepFile, b: DepRelation) {
    exists x :: x in f.rels && Satisfies(x, b)
  }

  /** A new file has no relations, so it satisfies nothing. */
  lemma NewFileSatisfiesNothing(path: string, b: DepRelation)
    ensures !FileSatisfies(NewDepFile(path), b)
    ensures NewDepFile(path).dependsOn == [] && !NewDepFile(path).isParsed
  {
  }

  /** After `add_relation(r)` a file satisfies what it did before and what `r` satisfies. */
  lemma AddRelationSatisfies(f: DepFile, r: DepRelation, b: DepRelation)
    ensures FileSatisfies(AddRelation(f, r), b) <==> FileSatisfies(f, b) || Satisfies(r, b)
  {
    if Satisfies(r, b) {
      assert r in AddRelation(f, r).rels;
    }
  }

  // ---------------------------------------------------------------------
  // Dependency levels

  /** Every dependency names a file of the list. */
  predicate WellFormed(files: seq<DepFile>) {
    forall i, j :: 0 <= i < |files| && 0 <= j < |files[i].dependsOn| ==> files[i].dependsOn[j] < |files|
  }

  /** The `dep_level` attribute of each file: `None` or a number, -1 while the
      file's level is being computed. */
  type Levels = seq<Option<int>>

  function Fresh(n: nat): (levels: Levels)
    ensures |levels| == n && forall i :: 0 <= i < n ==> levels[i] == None
  {
    seq(n, i => None)
  }

  /** Number of files whose level is still `None`. */
  function Unset(levels: Levels): nat {
    if |levels| == 0 then 0 else (if levels[0].None? then 1 else 0) + Unset(levels[1..])
  }

  /** `b` is `a` with possibly more levels set (set levels may change value). */
  predicate Extends(a: Levels, b: Levels) {
    |a| == |b| && forall i :: 0 <= i < |a| && a[i].Some? ==> b[i].Some?
  }

  lemma {:induction false} ExtendsUnset(a: Levels, b: Levels)
    requires Extends(a, b)
    ensures Unset(b) <= Unset(a)
    ensures (exists i :: 0 <= i < |a| && a[i].None? && b[i].Some?) ==> Unset(b) < Unset(a)
  {
    if |a| > 0 {
      assert Extends(a[1..], b[1..]) by {
        forall i | 0 <= i < |a[1..]| && a[1..][i].Some?
          ensures b[1..][i].Some?
        {
          assert a[i + 1].Some?;
        }
      }
      ExtendsUnset(a[1..], b[1..]);
      if exists i :: 0 <= i < |a| && a[i].None? && b[i].Some? {
        var i :| 0 <= i < |a| && a[i].None? && b[i].Some?;
        if i > 0 {
          assert a[1..][i - 1].None? && b[1..][i - 1].Some?;
        }
      }
    }
  }

  function Max(s: seq<int>): (m: int)
    requires |s| > 0
    ensures forall k :: 0 <= k < |s| ==> s[k] <= m
    ensures exists k :: 0 <= k < |s| && s[k] == m
  {
    if |s| == 1 then s[0]
    else
      var rest := Max(s[1..]);
      assert forall k :: 1 <= k < |s| ==> s[k] == s[1..][k - 1];
      if s[0] >= rest then s[0] else rest
  }

  /** `DepFile.get_dep_level` of file `f`: the level and the `dep_level`
      attributes afterwards. A level already set is returned as it is, so a
      file re-entered while its level is computed (-1) gives -1; otherwise a
      file without dependencies gets 0 and any other file 1 + the greatest
      level of its dependencies, computed in order with the file marked -1.
      The level is left memoised on the file. */
  function GetDepLevel(files: seq<DepFile>, levels: Levels, f: nat): (res: (int, Levels))
    requires WellFormed(files) && |levels| == |files| && f < |files|
    ensures Extends(levels, res.1)
    ensures forall i :: 0 <= i < |levels| && levels[i].Some? ==> res.1[i] == levels[i]
    ensures res.1[f] == Some(res.0)
    ensures levels[f].Some? ==> res == (levels[f].value, levels)
    decreases Unset(levels), 1, 0
  {
    if levels[f].Some? then (levels[f].value, levels)
    else if |files[f].dependsOn| == 0 then (0, levels[f := Some(0)])
    else
      var marked := levels[f := Some(-1)];
      ExtendsUnset(levels, marked);
      var (found, after) := DepLevels(files, marked, files[f].dependsOn);
      var level := 1 + Max(found);
      (level, after[f := Some(level)])
  }

  /** The levels of `deps`, computed one after another. */
  function DepLevels(files: seq<DepFile>, levels: Levels, deps: seq<nat>): (res: (seq<int>, Levels))
    requires WellFormed(files) && |levels| == |files|
    requires forall k :: 0 <= k < |deps| ==> deps[k] < |files|
    ensures Extends(levels, res.1)
    ensures forall i :: 0 <= i < |levels| && levels[i].Some? ==> res.1[i] == levels[i]
    ensures |res.0| == |deps|
    decreases Unset(levels), 2, |deps|
  {
    if |deps| == 0 then ([], levels)
    else
      var (level, mid) := GetDepLevel(files, levels, deps[0]);
      ExtendsUnset(levels, mid);
      var (rest, after) := DepLevels(files, mid, deps[1..]);
      ([level] + rest, after)
  }

  /** Asking twice gives the same level and changes nothing the second time. */
  lemma DepLevelMemoised(files: seq<DepFile>, levels: Levels, f: nat)
    requires WellFormed(files) && |levels| == |files| && f < |files|
    ensures var (level, after) := GetDepLevel(files, levels, f);
            GetDepLevel(files, after, f) == (level, after)
  {
  }

  /** A file that depends only on itself gets level 0: its own -1 plus one. */
  lemma SelfDependentFileHasLevelZero()
    ensures GetDepLevel([DepFile("a.vhd", {}, [0], true)], Fresh(1), 0).0 == 0
  {
    var files := [DepFile("a.vhd", {}, [0], true)];
    var marked := Fresh(1)[0 := Some(-1)];
    assert DepLevels(files, marked, [0]).0 == [-1];
  }

  // ---------------------------------------------------------------------
  // Order of visiting on a cycle

  /** A file with no dependencies and no level gets level 0. */
  lemma LeafLevel(files: seq<DepFile>, levels: Levels, f: nat)
    requires WellFormed(files) && |levels| == |files| && f < |files|
    requires levels[f].None? && files[f].dependsOn == []
    ensures GetDepLevel(files, levels, f) == (0, levels[f := Some(0)])
  {
  }

  /** A file with dependencies and no level: one more than the greatest level
      found with the file marked -1. */
  lemma InnerLevel(files: seq<DepFile>, levels: Levels, f: nat, found: seq<int>, after: Levels)
    requires WellFormed(files) && |levels| == |files| && f < |files|
    requires levels[f].None? && |files[f].dependsOn| > 0
    requires DepLevels(files, levels[f := Some(-1)], files[f].dependsOn) == (found, after)
    ensures |found| > 0
    ensures GetDepLevel(files, levels, f) == (1 + Max(found), after[f := Some(1 + Max(found))])
  {
  }

  lemma LevelsNil(files: seq<DepFile>, levels: Levels)
    requires WellFormed(files) && |levels| == |files|
    ensures DepLevels(files, levels, []) == ([], levels)
  {
  }

  /** The levels of a list: the first file's, then the rest's from there. */
  lemma LevelsCons(files: seq<DepFile>, levels: Levels, deps: seq<nat>, level: int, mid: Levels, rest: seq<int>, after: Levels)
    requires WellFormed(files) && |levels| == |files| && |deps| > 0
    requires forall k :: 0 <= k < |deps| ==> deps[k] < |files|
    requires GetDepLevel(files, levels, deps[0]) == (level, mid)
    requires DepLevels(files, mid, deps[1..]) == (rest, after)
    ensures DepLevels(files, levels, deps) == ([level] + rest, after)
  {
  }

  /** A depends on B and C (in the order `first`), B on C, C on B and X, X on Y. */
  function Cycle(first: seq<nat>): seq<DepFile> {
    [DepFile("a.vhd", {}, first, true), DepFile("b.vhd", {}, [2], true), DepFile("c.vhd", {}, [1, 3], true),
     DepFile("x.vhd", {}, [4], true), DepFile("y.vhd", {}, [], true)]
  }

  lemma CycleWellFormed(first: seq<nat>)
    requires forall k :: 0 <= k < |first| ==> first[k] < 5
    ensures WellFormed(Cycle(first)) && |Cycle(first)| == 5
  {
  }

  /** X's level is 1 once Y is unset and X is unset. */
  lemma CycleLevelOfX(first: seq<nat>, levels: Levels)
    requires forall k :: 0 <= k < |first| ==> first[k] < 5
    requires |levels| == 5 && levels[3].None? && levels[4].None?
    ensures WellFormed(Cycle(first))
    ensures GetDepLevel(Cycle(first), levels, 3) == (1, levels[3 := Some(-1)][4 := Some(0)][3 := Some(1)])
  {
    CycleWellFormed(first);
    var files := Cycle(first);
    var marked := levels[3 := Some(-1)];
    LeafLevel(files, marked, 4);
    LevelsNil(files, marked[4 := Some(0)]);
    assert [4][1..] == [];
    LevelsCons(files, marked, [4], 0, marked[4 := Some(0)], [], marked[4 := Some(0)]);
    assert [0] + [] == [0] && Max([0]) == 0;
    InnerLevel(files, levels, 3, [0], marked[4 := Some(0)]);
  }

  /** B, reached while C is marked: it sees -1 for C and gets level 0. */
  lemma CycleLevelOfBUnderC(first: seq<nat>, levels: Levels)
    requires forall k :: 0 <= k < |first| ==> first[k] < 5
    requires |levels| == 5 && levels[1].None? && levels[2].Some? && levels[2].value == -1
    ensures WellFormed(Cycle(first))
    ensures GetDepLevel(Cycle(first), levels, 1) == (0, levels[1 := Some(-1)][1 := Some(0)])
  {
    CycleWellFormed(first);
    var files := Cycle(first);
    var marked := levels[1 := Some(-1)];
    assert GetDepLevel(files, marked, 2) == (-1, marked);
    LevelsNil(files, marked);
    assert [2][1..] == [];
    LevelsCons(files, marked, [2], -1, marked, [], marked);
    assert [-1] + [] == [-1] && Max([-1]) == -1;
    InnerLevel(files, levels, 1, [-1], marked);
  }

  /** C, visited before B: B gets 0, X gets 1, and C gets 2. */
  lemma CycleLevelOfCFirst(first: seq<nat>, levels: Levels)
    requires forall k :: 0 <= k < |first| ==> first[k] < 5
    requires |levels| == 5 && levels[1].None? && levels[2].None? && levels[3].None? && levels[4].None?
    ensures WellFormed(Cycle(first))
    ensures GetDepLevel(Cycle(first), levels, 2)
         == (2, levels[2 := Some(-1)][1 := Some(-1)][1 := Some(0)][3 := Some(-1)][4 := Some(0)][3 := Some(1)][2 := Some(2)])
  {
    CycleWellFormed(first);
    var files := Cycle(first);
    var marked := levels[2 := Some(-1)];
    CycleLevelOfBUnderC(first, marked);
    var afterB := marked[1 := Some(-1)][1 := Some(0)];
    CycleLevelOfX(first, afterB);
    var afterX := afterB[3 := Some(-1)][4 := Some(0)][3 := Some(1)];
    LevelsNil(files, afterX);
    assert [1, 3][1..] == [3] && [3][1..] == [];
    LevelsCons(files, afterB, [3], 1, afterX, [], afterX);
    assert [1] + [] == [1];
    LevelsCons(files, marked, [1, 3], 0, afterB, [1], afterX);
    assert [0] + [1] == [0, 1] && Max([0, 1]) == 1;
    InnerLevel(files, levels, 2, [0, 1], afterX);
  }

  /** Visiting C first: B, reached from C, sees C marked and gets 0; C gets
      2; A gets 1 + max(2, 0) = 3. */
  lemma CycleLevelCFirst()
    ensures WellFormed(Cycle([2, 1]))
    ensures GetDepLevel(Cycle([2, 1]), Fresh(5), 0).0 == 3
  {
    CycleWellFormed([2, 1]);
    var files := Cycle([2, 1]);
    var l1 := Fresh(5)[0 := Some(-1)];
    CycleLevelOfCFirst([2, 1], l1);
    var l8 := l1[2 := Some(-1)][1 := Some(-1)][1 := Some(0)][3 := Some(-1)][4 := Some(0)][3 := Some(1)][2 := Some(2)];
    assert l8[1] == Some(0);
    assert GetDepLevel(files, l8, 1) == (0, l8);
    LevelsNil(files, l8);
    assert [2, 1][1..] == [1] && [1][1..] == [];
    LevelsCons(files, l8, [1], 0, l8, [], l8);
    assert [0] + [] == [0];
    LevelsCons(files, l1, [2, 1], 2, l8, [0], l8);
    assert [2] + [0] == [2, 0] && Max([2, 0]) == 2;
    InnerLevel(files, Fresh(5), 0, [2, 0], l8);
  }

  /** C, reached while B is marked: it sees -1 for B, 1 for X, and gets 2. */
  lemma CycleLevelOfCUnderB(first: seq<nat>, levels: Levels)
    requires forall k :: 0 <= k < |first| ==> first[k] < 5
    requires |levels| == 5 && levels[1].Some? && levels[1].value == -1 && levels[2].None? && levels[3].None? && levels[4].None?
    ensures WellFormed(Cycle(first))
    ensures GetDepLevel(Cycle(first), levels, 2)
         == (2, levels[2 := Some(-1)][3 := Some(-1)][4 := Some(0)][3 := Some(1)][2 := Some(2)])
  {
    CycleWellFormed(first);
    var files := Cycle(first);
    var marked := levels[2 := Some(-1)];
    assert GetDepLevel(files, marked, 1) == (-1, marked);
    CycleLevelOfX(first, marked);
    var afterX := marked[3 := Some(-1)][4 := Some(0)][3 := Some(1)];
    LevelsNil(files, afterX);
    assert [1, 3][1..] == [3] && [3][1..] == [];
    LevelsCons(files, marked, [3], 1, afterX, [], afterX);
    assert [1] + [] == [1];
    LevelsCons(files, marked, [1, 3], -1, marked, [1], afterX);
    assert [-1] + [1] == [-1, 1] && Max([-1, 1]) == 1;
    InnerLevel(files, levels, 2, [-1, 1], afterX);
  }

  /** B, visited before C: C gets 2 and B gets 3. */
  lemma CycleLevelOfBFirst(first: seq<nat>, levels: Levels)
    requires forall k :: 0 <= k < |first| ==> first[k] < 5
    requires |levels| == 5 && levels[1].None? && levels[2].None? && levels[3].None? && levels[4].None?
    ensures WellFormed(Cycle(first))
    ensures GetDepLevel(Cycle(first), levels, 1)
         == (3, levels[1 := Some(-1)][2 := Some(-1)][3 := Some(-1)][4 := Some(0)][3 := Some(1)][2 := Some(2)][1 := Some(3)])
  {
    CycleWellFormed(first);
    var files := Cycle(first);
    var marked := levels[1 := Some(-1)];
    CycleLevelOfCUnderB(first, marked);
    var afterC := marked[2 := Some(-1)][3 := Some(-1)][4 := Some(0)][3 := Some(1)][2 := Some(2)];
    LevelsNil(files, afterC);
    assert [2][1..] == [];
    LevelsCons(files, marked, [2], 2, afterC, [], afterC);
    assert [2] + [] == [2] && Max([2]) == 2;
    InnerLevel(files, levels, 1, [2], afterC);
  }

  /** Visiting B first: C, reached from B, sees B marked, takes X's level 1
      and gets 2; B gets 3; A gets 1 + max(3, 2) = 4. */
  lemma CycleLevelBFirst()
    ensures WellFormed(Cycle([1, 2]))
    ensures GetDepLevel(Cycle([1, 2]), Fresh(5), 0).0 == 4
  {
    CycleWellFormed([1, 2]);
    var files := Cycle([1, 2]);
    var l1 := Fresh(5)[0 := Some(-1)];
    CycleLevelOfBFirst([1, 2], l1);
    var l8 := l1[1 := Some(-1)][2 := Some(-1)][3 := Some(-1)][4 := Some(0)][3 := Some(1)][2 := Some(2)][1 := Some(3)];
    assert l8[2] == Some(2);
    assert GetDepLevel(files, l8, 2) == (2, l8);
    LevelsNil(files, l8);
    assert [1, 2][1..] == [2] && [2][1..] == [];
    LevelsCons(files, l8, [2], 2, l8, [], l8);
    assert [2] + [] == [2];
    LevelsCons(files, l1, [1, 2], 3, l8, [2], l8);
    assert [3] + [2] == [3, 2] && Max([3, 2]) == 3;
    InnerLevel(files, Fresh(5), 0, [3, 2], l8);
  }

  /** On a cycle the level of a file depends on the order in which its
      dependencies are visited. The source keeps `depends_on` as a set of
      files hashed by path, so that order is not fixed by the program. */
  lemma DepLevelDependsOnOrder()
    ensures WellFormed(Cycle([1, 2])) && WellFormed(Cycle([2, 1]))
    ensures GetDepLevel(Cycle([1, 2]), Fresh(5), 0).0 == 4
    ensures GetDepLevel(Cycle([2, 1]), Fresh(5), 0).0 == 3
  {
    CycleLevelBFirst();
    CycleLevelCFirst();
  }

  // ---------------------------------------------------------------------
  // Acyclic graphs

  /** A rank that strictly decreases along every dependency: the graph is acyclic. */
  predicate Ranked(files: seq<DepFile>, rank: seq<nat>) {
    && WellFormed(files)
    && |rank| == |files|
    && forall i, j :: 0 <= i < |files| && 0 <= j < |files[i].dependsOn| ==>
         rank[files[i].dependsOn[j]] < rank[i]
  }

  /** The height of a file in an acyclic graph: 0 without dependencies,
      otherwise one more than its highest dependency. */
  function Height(files: seq<DepFile>, rank: seq<nat>, f: nat): (h: nat)
    requires Ranked(files, rank) && f < |files|
    decreases rank[f], 1, 0
  {
    if |files[f].dependsOn| == 0 then 0
    else 1 + MaxNat(Heights(files, rank, files[f].dependsOn, rank[f]))
  }

  function Heights(files: seq<DepFile>, rank: seq<nat>, deps: seq<nat>, bound: nat): (hs: seq<nat>)
    requires Ranked(files, rank)
    requires forall k :: 0 <= k < |deps| ==> deps[k] < |files| && rank[deps[k]] < bound
    ensures |hs| == |deps|
    ensures forall k :: 0 <= k < |deps| ==> hs[k] == Height(files, rank, deps[k])
    decreases bound, 0, |deps|
  {
    if |deps| == 0 then []
    else [Height(files, rank, deps[0])] + Heights(files, rank, deps[1..], bound)
  }

  function MaxNat(s: seq<nat>): (m: nat)
    requires |s| > 0
    ensures m == Max(s)
  {
    if |s| == 1 then s[0]
    else
      var rest := MaxNat(s[1..]);
      if s[0] >= rest then s[0] else rest
  }

  /** Every level set for a file of rank below `bound` is that file's height. */
  predicate CorrectBelow(files: seq<DepFile>, rank: seq<nat>, levels: Levels, bound: nat)
    requires Ranked(files, rank) && |levels| == |files|
  {
    forall i :: 0 <= i < |files| && rank[i] < bound && levels[i].Some? ==>
      levels[i].value == Height(files, rank, i)
  }

  /** The levels of files of rank at least `bound` are untouched. */
  predicate SameFrom(rank: seq<nat>, a: Levels, b: Levels, bound: nat)
    requires |a| == |b| == |rank|
  {
    forall i :: 0 <= i < |a| && rank[i] >= bound ==> a[i] == b[i]
  }

  /** On an acyclic graph, starting from levels that are correct below the
      file's rank, `get_dep_level` computes the file's height, keeps the
      levels correct and leaves the higher-ranked files alone. */
  lemma {:induction false} DepLevelIsHeight(files: seq<DepFile>, rank: seq<nat>, levels: Levels, f: nat, bound: nat)
    requires Ranked(files, rank) && |levels| == |files| && f < |files| && rank[f] < bound
    requires CorrectBelow(files, rank, levels, bound)
    ensures GetDepLevel(files, levels, f).0 == Height(files, rank, f)
    ensures CorrectBelow(files, rank, GetDepLevel(files, levels, f).1, bound)
    ensures SameFrom(rank, levels, GetDepLevel(files, levels, f).1, bound)
    decreases rank[f], 1, 0
  {
    if levels[f].None? && |files[f].dependsOn| > 0 {
      var deps := files[f].dependsOn;
      var marked := levels[f := Some(-1)];
      assert CorrectBelow(files, rank, marked, rank[f]);
      DepLevelsAreHeights(files, rank, marked, deps, rank[f]);
      var (found, after) := DepLevels(files, marked, deps);
      assert found == Heights(files, rank, deps, rank[f]);
      var level := 1 + Max(found);
      assert level == Height(files, rank, f);
      var result := after[f := Some(level)];
      assert GetDepLevel(files, levels, f) == (level, result);
      forall i | 0 <= i < |files| && rank[i] < bound && result[i].Some?
        ensures result[i].value == Height(files, rank, i)
      {
        if i != f && rank[i] >= rank[f] {
          assert after[i] == marked[i] == levels[i];
        }
      }
    }
  }

  lemma {:induction false} DepLevelsAreHeights(files: seq<DepFile>, rank: seq<nat>, levels: Levels, deps: seq<nat>, bound: nat)
    requires Ranked(files, rank) && |levels| == |files|
    requires forall k :: 0 <= k < |deps| ==> deps[k] < |files| && rank[deps[k]] < bound
    requires CorrectBelow(files, rank, levels, bound)
    ensures DepLevels(files, levels, deps).0 == Heights(files, rank, deps, bound)
    ensures CorrectBelow(files, rank, DepLevels(files, levels, deps).1, bound)
    ensures SameFrom(rank, levels, DepLevels(files, levels, deps).1, bound)
    decreases bound, 0, |deps|
  {
    if |deps| > 0 {
      DepLevelIsHeight(files, rank, levels, deps[0], bound);
      var (level, mid) := GetDepLevel(files, levels, deps[0]);
      DepLevelsAreHeights(files, rank, mid, deps[1..], bound);
    }
  }

  /** From fresh levels, on an acyclic graph, the level of a file is its
      height: 0 exactly when it has no dependencies, and greater than the
      level of each of its dependencies. */
  lemma DepLevelOnAcyclicGraph(files: seq<DepFile>, rank: seq<nat>, f: nat)
    requires Ranked(files, rank) && f < |files|
    ensures GetDepLevel(files, Fresh(|files|), f).0 == Height(files, rank, f)
    ensures Height(files, rank, f) == 0 <==> |files[f].dependsOn| == 0
    ensures forall j :: 0 <= j < |files[f].dependsOn| ==>
              Height(files, rank, files[f].dependsOn[j]) < Height(files, rank, f)
  {
    DepLevelIsHeight(files, rank, Fresh(|files|), f, rank[f] + 1);
    var deps := files[f].dependsOn;
    if |deps| > 0 {
      var hs := Heights(files, rank, deps, rank[f]);
      forall j | 0 <= j < |deps|
        ensures Height(files, rank, deps[j]) < Height(files, rank, f)
      {
        assert hs[j] <= Max(hs);
      }
    }
  }
}
