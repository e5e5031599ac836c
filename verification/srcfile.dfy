/** Source files: the closed taxonomy of file kinds chosen by extension, the
    relations IP and Qsys files carry by construction, and file sets
    (hdlmake/srcfile.py). */
module SrcFile {
  import opened Results
  import opened Strings
  import opened DepFiles

  /** One kind per file class of the source. */
  datatype FileKind =
    | VHDL | Verilog | SV | WBGen | TCL | SDC
      // Xilinx
    | XISE | NGC | UCF | CDC | XMP | PPR | XPR | BD | XCO | XDC | XCF | COE | MIF | RAM
    | VHO | VEO | BMM | XCI
      // Intel/Altera
    | SignalTap | QIP | IP | QSYS | DPF | QSF | BSF | BDF | TDF | GDF
      // Lattice
    | LDF | LPF | EDF | PCF
      // Microsemi
    | PDC

  /** `isinstance` on the class hierarchy: SVFile is a subclass of VerilogFile. */
  predicate IsA(k: FileKind, cls: FileKind) {
    k == cls || (k == SV && cls == Verilog)
  }

  /** The kinds whose class derives from SourceFile (and so has a library and relations). */
  predicate IsSource(k: FileKind) {
    k in {VHDL, Verilog, SV, XCI, IP, QSYS}
  }

  const XilinxKinds: map<string, FileKind> := map[
    "xise" := XISE, "ise" := XISE, "ngc" := NGC, "ucf" := UCF, "cdc" := CDC,
    "xmp" := XMP, "ppr" := PPR, "xpr" := XPR, "bd" := BD, "xco" := XCO,
    "xdc" := XDC, "xcf" := XCF, "coe" := COE, "mif" := MIF, "ram" := RAM,
    "vho" := VHO, "veo" := VEO, "bmm" := BMM, "xci" := XCI]

  const AlteraKinds: map<string, FileKind> := map[
    "stp" := SignalTap, "qip" := QIP, "ip" := IP, "qsys" := QSYS, "dpf" := DPF,
    "qsf" := QSF, "bsf" := BSF, "bdf" := BDF, "tdf" := TDF, "gdf" := GDF]

  const LatticeKinds: map<string, FileKind> := map[
    "ldf" := LDF, "lpf" := LPF, "edf" := EDF, "edif" := EDF, "edi" := EDF,
    "edn" := EDF, "pcf" := PCF]

  const MicrosemiKinds: map<string, FileKind> := map["pdc" := PDC]

  const VhdlExtensions: seq<string> := ["vhd", "vhdl", "vho"]
  const VerilogExtensions: seq<string> := ["v", "vh", "vo", "vm"]
  const SvExtensions: seq<string> := ["sv", "svh"]

  /** Every extension `create_source_file` knows. */
  predicate KnownExtension(ext: string) {
    || ext in VhdlExtensions || ext in VerilogExtensions || ext in SvExtensions
    || ext in {"wb", "tcl", "sdc"}
    || ext in XilinxKinds || ext in AlteraKinds || ext in LatticeKinds || ext in MicrosemiKinds
  }

  /** The kind of file an extension makes, trying the groups in the source's
      order; `None` for an unknown extension. */
  function KindOfExtension(ext: string): (k: Option<FileKind>)
    ensures k.Some? <==> KnownExtension(ext)
    ensures ext in VhdlExtensions ==> k == Some(VHDL)
    ensures ext !in VhdlExtensions && ext in VerilogExtensions ==> k == Some(Verilog)
    ensures ext !in VhdlExtensions + VerilogExtensions && ext in SvExtensions ==> k == Some(SV)
    ensures ext !in VhdlExtensions + VerilogExtensions + SvExtensions ==>
              (ext == "wb" ==> k == Some(WBGen)) && (ext == "tcl" ==> k == Some(TCL)) && (ext == "sdc" ==> k == Some(SDC))
  {
    if ext in VhdlExtensions then Some(VHDL)
    else if ext in VerilogExtensions then Some(Verilog)
    else if ext in SvExtensions then Some(SV)
    else if ext == "wb" then Some(WBGen)
    else if ext == "tcl" then Some(TCL)
    else if ext == "sdc" then Some(SDC)
    else if ext in XilinxKinds then Some(XilinxKinds[ext])
    else if ext in AlteraKinds then Some(AlteraKinds[ext])
    else if ext in LatticeKinds then Some(LatticeKinds[ext])
    else if ext in MicrosemiKinds then Some(MicrosemiKinds[ext])
    else None
  }

  /** Past the HDL groups and the three single extensions, the vendor tables
      are consulted in the order Xilinx, Altera, Lattice, Microsemi. */
  lemma VendorTableOrder(ext: string)
    requires ext !in VhdlExtensions + VerilogExtensions + SvExtensions + ["wb", "tcl", "sdc"]
    ensures ext in XilinxKinds ==> KindOfExtension(ext) == Some(XilinxKinds[ext])
    ensures ext !in XilinxKinds && ext in AlteraKinds ==> KindOfExtension(ext) == Some(AlteraKinds[ext])
    ensures ext !in XilinxKinds && ext !in AlteraKinds && ext in LatticeKinds ==>
              KindOfExtension(ext) == Some(LatticeKinds[ext])
    ensures ext !in XilinxKinds && ext !in AlteraKinds && ext !in LatticeKinds && ext in MicrosemiKinds ==>
              KindOfExtension(ext) == Some(MicrosemiKinds[ext])
  {
  }

  /** `vho` is both a VHDL extension and a Xilinx key; the VHDL group is tried
      first. Matching is exact, so an upper-case extension is unknown. */
  lemma ExtensionOrder()
    ensures "vho" in XilinxKinds && KindOfExtension("vho") == Some(VHDL)
    ensures KindOfExtension("VHD") == None
    ensures KindOfExtension("sv") == Some(SV) && KindOfExtension("ip") == Some(IP)
  {
    assert "vho" in VhdlExtensions;
    UpperCaseUnknown();
    assert "sv" in SvExtensions;
    IpIsAltera();
  }

  /** No extension any group knows begins with an upper-case letter. */
  lemma UpperCaseUnknown()
    ensures !KnownExtension("VHD")
  {
    UpperCaseNotHdl();
    UpperCaseNotXilinx();
    UpperCaseNotAltera();
    UpperCaseNotOther();
  }

  lemma UpperCaseNotHdl()
    ensures "VHD" !in VhdlExtensions + VerilogExtensions + SvExtensions + ["wb", "tcl", "sdc"]
  {
    assert "VHD"[0] == 'V';
  }

  lemma UpperCaseNotXilinx()
    ensures "VHD" !in XilinxKinds
  {
    assert "VHD"[0] == 'V';
  }

  lemma UpperCaseNotAltera()
    ensures "VHD" !in AlteraKinds
  {
    assert "VHD"[0] == 'V';
  }

  lemma UpperCaseNotOther()
    ensures "VHD" !in LatticeKinds && "VHD" !in MicrosemiKinds
  {
    assert "VHD"[0] == 'V';
  }

  lemma IpIsAltera()
    ensures KindOfExtension("ip") == Some(IP)
  {
    assert "ip" in AlteraKinds && AlteraKinds["ip"] == IP;
    IpNotXilinx();
    IpNotHdl();
    VendorTableOrder("ip");
  }

  lemma IpNotXilinx()
    ensures "ip" !in XilinxKinds
  {
    assert "ip"[1] == 'p';
  }

  lemma IpNotHdl()
    ensures "ip" !in VhdlExtensions + VerilogExtensions + SvExtensions + ["wb", "tcl", "sdc"]
  {
    assert "ip"[0] == 'i';
  }

  /** A file of the design: its kind, its absolute path and, for the
      SourceFile kinds, its library, relations, parse state, and for Verilog
      and SystemVerilog its include directories. */
  datatype HdlFile = HdlFile(
    kind: FileKind,
    path: string,
    library: Option<string>,
    rels: set<DepRelation>,
    isParsed: bool,
    includeDirs: seq<string>,
    isInclude: bool)

  /** `SourceFile.__init__`: a missing or empty library means "work". */
  function SourceLibrary(library: Option<string>): (lib: string)
    ensures library.None? || library == Some("") ==> lib == "work"
    ensures library.Some? && library.value != "" ==> lib == library.value
    ensures lib != ""
  {
    if library.None? || library.value == "" then "work" else library.value
  }

  /** A file-set member `f` satisfies the used relation `b`. */
  predicate HdlSatisfies(f: HdlFile, b: DepRelation) {
    exists x :: x in f.rels && Satisfies(x, b)
  }

  /** The last component of a path. */
  function FileName(path: string): string {
    AfterLast(path, '/')
  }

  /** `IPFile`: library and entity are the file name without its last three
      characters; the file provides the entity `library.entity`. */
  function IpFile(path: string): (f: HdlFile)
    ensures f.kind == IP && f.isParsed && f.path == path
    ensures |FileName(path)| > 3 ==> f.library == Some(DropLast(FileName(path), 3))
    ensures |FileName(path)| <= 3 ==> f.library == Some("work")
    ensures f.rels == {NewRelation(DropLast(FileName(path), 3) + "." + DropLast(FileName(path), 3), Provide, Entity)}
  {
    var lib := DropLast(FileName(path), 3);
    HdlFile(IP, path, Some(SourceLibrary(Some(lib))), {NewRelation(lib + "." + lib, Provide, Entity)}, true, [], false)
  }

  /** An IP file satisfies the use of its own entity, whatever the letter case. */
  lemma IpFileProvidesItsEntity(path: string, used: string)
    requires ToLower(used) == ToLower(DropLast(FileName(path), 3) + "." + DropLast(FileName(path), 3))
    ensures HdlSatisfies(IpFile(path), NewRelation(used, Use, Entity))
  {
    var lib := DropLast(FileName(path), 3);
    var p := NewRelation(lib + "." + lib, Provide, Entity);
    NewRelationIgnoresCase(used, lib + "." + lib, Use, Entity);
    ProvisionSatisfiesUse(lib + "." + lib, Entity);
    assert p in IpFile(path).rels;
  }

  // --- the Qsys reference scan: <hdlLibraryName>NAME</hdlLibraryName>

  const OpenTag: string := "<hdlLibraryName>"
  const CloseTag: string := "</hdlLibraryName>"

  /** `\w` of a bytes pattern: ASCII letters, digits and underscore. */
  predicate IsWordChar(c: char) {
    ('a' <= c <= 'z') || ('A' <= c <= 'Z') || ('0' <= c <= '9') || c == '_'
  }

  predicate IsWord(x: string) {
    |x| > 0 && forall i :: 0 <= i < |x| ==> IsWordChar(x[i])
  }

  /** Length of the longest prefix of word characters. */
  function WordRun(s: string): (n: nat)
    ensures n <= |s|
    ensures forall i :: 0 <= i < n ==> IsWordChar(s[i])
    ensures n < |s| ==> !IsWordChar(s[n])
  {
    if |s| == 0 || !IsWordChar(s[0]) then 0 else 1 + WordRun(s[1..])
  }

  function Tag(x: string): string {
    OpenTag + x + CloseTag
  }

  /** The match of the reference pattern at the start of `s`, with its length. */
  function MatchAt(s: string): (m: Option<(string, nat)>)
    ensures m.Some? ==> IsWord(m.value.0) && 0 < m.value.1 <= |s| && s[..m.value.1] == Tag(m.value.0)
  {
    if !StartsWith(s, OpenTag) then None
    else
      var rest := s[|OpenTag|..];
      var n := WordRun(rest);
      if n > 0 && StartsWith(rest[n..], CloseTag) then
        assert s[..|OpenTag| + n + |CloseTag|] == OpenTag + rest[..n] + CloseTag;
        Some((rest[..n], |OpenTag| + n + |CloseTag|))
      else None
  }

  /** The library names of the non-overlapping matches, left to right, as
      `finditer` yields them. */
  function LibraryNames(s: string): (names: seq<string>)
    ensures forall k :: 0 <= k < |names| ==> IsWord(names[k])
    decreases |s|
  {
    if |s| == 0 then []
    else match MatchAt(s)
      case Some((x, len)) => [x] + LibraryNames(s[len..])
      case None => LibraryNames(s[1..])
  }

  function Tags(xs: seq<string>): string {
    if |xs| == 0 then [] else Tag(xs[0]) + Tags(xs[1..])
  }

  lemma {:induction false} WordRunOfWord(x: string, t: string)
    requires IsWord(x) && |t| > 0 && !IsWordChar(t[0])
    ensures WordRun(x + t) == |x|
  {
    if |x| > 1 {
      assert (x + t)[1..] == x[1..] + t;
      WordRunOfWord(x[1..], t);
    } else {
      assert (x + t)[1..] == t;
    }
  }

  /** A tag followed by anything is matched at the start, whole. */
  lemma MatchAtTag(x: string, t: string)
    requires IsWord(x)
    ensures MatchAt(Tag(x) + t) == Some((x, |Tag(x)|))
  {
    var s := Tag(x) + t;
    var rest := CloseTag + t;
    assert s == OpenTag + (x + rest);
    assert s[..|OpenTag|] == OpenTag;
    assert s[|OpenTag|..] == x + rest;
    assert rest[0] == '<';
    WordRunOfWord(x, rest);
    assert (x + rest)[|x|..] == rest;
    assert rest[..|CloseTag|] == CloseTag;
    assert (x + rest)[..|x|] == x;
  }

  /** A content made of the tags of `xs` yields exactly the names `xs`. */
  lemma {:induction false} LibraryNamesOfTags(xs: seq<string>)
    requires forall k :: 0 <= k < |xs| ==> IsWord(xs[k])
    ensures LibraryNames(Tags(xs)) == xs
  {
    if |xs| > 0 {
      var x := xs[0];
      var s := Tags(xs);
      MatchAtTag(x, Tags(xs[1..]));
      assert s[|Tag(x)|..] == Tags(xs[1..]);
      LibraryNamesOfTags(xs[1..]);
    }
  }

  /** Only the first character of the opening tag is `<`, and its second is
      not the closing tag's second. */
  lemma TagChars()
    ensures forall k :: 1 <= k < |OpenTag| ==> OpenTag[k] != '<'
    ensures forall k :: 1 <= k < |CloseTag| ==> CloseTag[k] != '<'
    ensures OpenTag[0] == '<' && OpenTag[1] == 'h' && CloseTag[1] == '/'
  {
  }

  /** No opening tag starts strictly inside a match, so matches cannot overlap. */
  lemma NoTagInsideMatch(s: string, y: string, len: nat, i: nat)
    requires MatchAt(s) == Some((y, len))
    requires 0 < i < len
    ensures !StartsWith(s[i..], OpenTag)
  {
    var t := Tag(y);
    assert s[..len] == t;
    TagChars();
    var a := |OpenTag|;
    var b := |OpenTag| + |y|;
    if i < a {
      assert t[i] == OpenTag[i];
    } else if i < b {
      assert t[i] == y[i - a];
      assert IsWordChar(y[i - a]);
    } else if i == b {
      assert t[i + 1] == CloseTag[1];
    } else {
      assert t[i] == CloseTag[i - b];
    }
    assert s[i] != '<' || s[i + 1] != 'h';
  }

  lemma TagStartsWithOpenTag(s: string, x: string)
    requires StartsWith(s, Tag(x))
    ensures StartsWith(s, OpenTag)
  {
    assert s[..|OpenTag|] == Tag(x)[..|OpenTag|];
  }

  /** A tag at the start makes the match at the start. */
  lemma MatchAtStartingTag(s: string, x: string)
    requires IsWord(x) && StartsWith(s, Tag(x))
    ensures MatchAt(s) == Some((x, |Tag(x)|))
  {
    assert s == Tag(x) + s[|Tag(x)|..];
    MatchAtTag(x, s[|Tag(x)|..]);
  }

  /** Every name found is the word of a whole tag somewhere in the content. */
  lemma {:induction false} LibraryNameHasTag(s: string, x: string)
    requires x in LibraryNames(s)
    ensures IsWord(x) && exists i :: 0 <= i <= |s| && StartsWith(s[i..], Tag(x))
    decreases |s|
  {
    match MatchAt(s)
    case Some((y, len)) =>
      if x == y {
        assert StartsWith(s[0..], Tag(x));
      } else {
        LibraryNameHasTag(s[len..], x);
        var j :| 0 <= j <= |s[len..]| && StartsWith(s[len..][j..], Tag(x));
        assert s[len..][j..] == s[len + j..];
      }
    case None =>
      LibraryNameHasTag(s[1..], x);
      var j :| 0 <= j <= |s[1..]| && StartsWith(s[1..][j..], Tag(x));
      assert s[1..][j..] == s[1 + j..];
  }

  /** Every whole tag in the content is found: the scan never jumps over one. */
  lemma {:induction false} TagHasLibraryName(s: string, x: string, i: nat)
    requires IsWord(x) && i <= |s| && StartsWith(s[i..], Tag(x))
    ensures x in LibraryNames(s)
    decreases |s|
  {
    assert |s| > 0;
    if i == 0 {
      MatchAtStartingTag(s, x);
    } else {
      match MatchAt(s)
      case Some((y, len)) =>
        if i < len {
          TagStartsWithOpenTag(s[i..], x);
          NoTagInsideMatch(s, y, len, i);
          assert false;
        }
        assert s[len..][i - len..] == s[i..];
        TagHasLibraryName(s[len..], x, i - len);
      case None =>
        assert s[1..][i - 1..] == s[i..];
        TagHasLibraryName(s[1..], x, i - 1);
    }
  }

  /** The names found are exactly the words of the tags in the content. */
  lemma LibraryNamesAreTags(s: string, x: string)
    ensures x in LibraryNames(s) <==> IsWord(x) && exists i :: 0 <= i <= |s| && StartsWith(s[i..], Tag(x))
  {
    if x in LibraryNames(s) {
      LibraryNameHasTag(s, x);
    }
    if IsWord(x) && exists i :: 0 <= i <= |s| && StartsWith(s[i..], Tag(x)) {
      var i :| 0 <= i <= |s| && StartsWith(s[i..], Tag(x));
      TagHasLibraryName(s, x, i);
    }
  }

  /** `QSYSFile`: the name is the file name without its last five characters;
      the file provides entity and architecture `name.name` and uses the
      entity `x.x` for each library name `x` referenced in its content. */
  function QsysFile(path: string, content: string): (f: HdlFile)
    ensures f.kind == QSYS && f.isParsed && f.path == path
    ensures |FileName(path)| > 5 ==> f.library == Some(DropLast(FileName(path), 5))
    ensures |FileName(path)| <= 5 ==> f.library == Some("work")
    ensures var name := DropLast(FileName(path), 5);
            && NewRelation(name + "." + name, Provide, Entity) in f.rels
            && NewRelation(name + "." + name, Provide, Architecture) in f.rels
    ensures forall r :: r in f.rels && r.direction == Provide ==>
              var name := DropLast(FileName(path), 5);
              r == NewRelation(name + "." + name, Provide, Entity) || r == NewRelation(name + "." + name, Provide, Architecture)
    ensures forall r :: r in f.rels && r.direction == Use ==>
              r.relType == Entity && exists x :: x in LibraryNames(content) && r == NewRelation(x + "." + x, Use, Entity)
    ensures forall x :: x in LibraryNames(content) ==> NewRelation(x + "." + x, Use, Entity) in f.rels
  {
    var name := DropLast(FileName(path), 5);
    var provided := {NewRelation(name + "." + name, Provide, Entity), NewRelation(name + "." + name, Provide, Architecture)};
    var uses := set x | x in LibraryNames(content) :: NewRelation(x + "." + x, Use, Entity);
    HdlFile(QSYS, path, Some(SourceLibrary(Some(name))), provided + uses, true, [], false)
  }

  /** What the environment answers for a path: `os.path.abspath(path)`, the
      relative form of the file's directory, and the file's content. */
  datatype Host = Host(absPath: string, relDirName: string, content: string)

  predicate IsAbs(path: string) {
    StartsWith(path, "/")
  }

  /** The constructor call `create_source_file` makes for kind `k`. The
      library argument reaches only VHDL, Verilog and SystemVerilog files;
      XCI files get the default library and IP and Qsys files name their own. */
  function MakeFile(k: FileKind, path: string, library: Option<string>,
                    includeDirs: Option<seq<string>>, isInclude: bool, host: Host): (f: HdlFile)
    ensures f.kind == k && f.path == path
    ensures f.library.Some? <==> IsSource(k)
    ensures (k == VHDL || k == Verilog || k == SV) ==> f.library == Some(SourceLibrary(library))
    ensures k == XCI ==> f.library == Some("work")
    ensures (k == Verilog || k == SV) ==> f.includeDirs == includeDirs.GetOr([]) + [host.relDirName]
    ensures (k == Verilog || k == SV) ==> f.isInclude == isInclude
    ensures (k == VHDL || k == Verilog || k == SV || k == XCI) ==> f.rels == {} && !f.isParsed
    ensures k == IP ==> f == IpFile(path)
    ensures k == QSYS ==> f == QsysFile(path, host.content)
  {
    if k == VHDL then
      HdlFile(VHDL, path, Some(SourceLibrary(library)), {}, false, [], false)
    else if k == Verilog || k == SV then
      HdlFile(k, path, Some(SourceLibrary(library)), {}, false,
              includeDirs.GetOr([]) + [host.relDirName], isInclude)
    else if k == XCI then
      HdlFile(XCI, path, Some(SourceLibrary(None)), {}, false, [], false)
    else if k == IP then
      IpFile(path)
    else if k == QSYS then
      QsysFile(path, host.content)
    else
      HdlFile(k, path, None, {}, false, [], false)
  }

  /** `create_source_file`: a missing or empty path and an unknown extension
      are errors; otherwise the file of the kind the extension of the
      absolute path selects. */
  function CreateSourceFile(path: Option<string>, library: Option<string>,
                            includeDirs: Option<seq<string>>, isInclude: bool, host: Host): (r: Result<HdlFile>)
    ensures path.None? || path == Some("") ==> r.Err?
    ensures path.Some? && path.value != "" ==>
              var full := if IsAbs(path.value) then path.value else host.absPath;
              && (r.Ok? <==> KnownExtension(Extension(full)))
              && (r.Ok? ==> Some(r.value.kind) == KindOfExtension(Extension(full)) && r.value.path == full)
  {
    if path.None? || path.value == "" then Err("Expected a file path")
    else
      var full := if IsAbs(path.value) then path.value else host.absPath;
      match KindOfExtension(Extension(full))
      case None => Err("Cannot create source file, unknown file extension")
      case Some(k) => Ok(MakeFile(k, full, library, includeDirs, isInclude, host))
  }

  // ---------------------------------------------------------------------
  // SourceFileSet

  type FileSet = set<HdlFile>

  /** What `SourceFileSet.add` may be given. */
  datatype AddArg = Text(s: string) | NoFile | Files(items: set<HdlFile>) | OneFile(f: HdlFile)

  /** `SourceFileSet.add`: a string is refused, `None` is ignored, an
      iterable adds each of its elements and a single file adds itself. */
  function FileSetAdd(fs: FileSet, arg: AddArg): (r: Result<FileSet>)
    ensures r.Err? <==> arg.Text?
    ensures r.Ok? ==> fs <= r.value
    ensures r.Ok? ==> forall f :: f in r.value - fs ==>
              (arg.Files? && f in arg.items) || (arg.OneFile? && f == arg.f)
    ensures arg.Files? ==> r.Ok? && arg.items <= r.value
    ensures arg.OneFile? ==> r.Ok? && arg.f in r.value
  {
    match arg
    case Text(_) => Err("Expected object, not a string")
    case NoFile => Ok(fs)
    case Files(items) => Ok(fs + items)
    case OneFile(f) => Ok(fs + {f})
  }

  /** Adding the same thing a second time changes nothing. */
  lemma FileSetAddIdempotent(fs: FileSet, arg: AddArg)
    requires !arg.Text?
    ensures FileSetAdd(FileSetAdd(fs, arg).value, arg) == FileSetAdd(fs, arg)
  {
  }

  /** `SourceFileSet.filter`: the members that are instances of `cls`. */
  function Filter(fs: FileSet, cls: FileKind): (r: FileSet)
    ensures r <= fs
    ensures forall f :: f in fs && IsA(f.kind, cls) ==> f in r
    ensures forall f :: f in r ==> IsA(f.kind, cls)
  {
    set f | f in fs && IsA(f.kind, cls)
  }

  /** Filtering distributes over union, and a Verilog filter keeps SystemVerilog files. */
  lemma FilterUnion(a: FileSet, b: FileSet, cls: FileKind)
    ensures Filter(a + b, cls) == Filter(a, cls) + Filter(b, cls)
    ensures Filter(Filter(a, cls), cls) == Filter(a, cls)
  {
  }

  lemma FilterVerilogKeepsSv(fs: FileSet)
    ensures Filter(fs, SV) <= Filter(fs, Verilog)
    ensures Filter(fs, Verilog) == Filter(fs, SV) + set f | f in fs && f.kind == Verilog
  {
  }

  predicate SortedByPath(s: seq<HdlFile>) {
    forall i, j :: 0 <= i < j < |s| ==> StrLe(s[i].path, s[j].path)
  }

  /** Places `f` before the first member whose path is not below its own. */
  function InsertByPath(s: seq<HdlFile>, f: HdlFile): (r: seq<HdlFile>)
    requires SortedByPath(s)
    ensures SortedByPath(r)
    ensures |r| == |s| + 1
    ensures forall g :: g in r <==> g in s || g == f
  {
    if |s| == 0 then [f]
    else if StrLe(f.path, s[0].path) then
      StrLeReflexive(s[0].path);
      forall j | 0 <= j < |s| ensures StrLe(f.path, s[j].path) {
        StrLeTransitive(f.path, s[0].path, s[j].path);
      }
      [f] + s
    else
      StrLeTotal(f.path, s[0].path);
      var rest := InsertByPath(s[1..], f);
      assert forall g :: g in rest ==> StrLe(s[0].path, g.path) by {
        forall g | g in rest ensures StrLe(s[0].path, g.path) {
          if g != f {
            var j :| 0 <= j < |s[1..]| && s[1..][j] == g;
            assert s[j + 1] == g;
          }
        }
      }
      [s[0]] + rest
  }

  /** `SourceFileSet.sort`: every member exactly once, ordered by `file_path`.
      Members without a `file_path` (files that are not SourceFiles) make the
      sort fail. Members with equal paths come in an unspecified order. */
  method Sort(fs: FileSet) returns (r: Result<seq<HdlFile>>)
    ensures r.Ok? <==> forall f :: f in fs ==> IsSource(f.kind)
    ensures r.Ok? ==> SortedByPath(r.value) && |r.value| == |fs|
                      && forall f :: f in r.value <==> f in fs
  {
    if exists f :: f in fs && !IsSource(f.kind) {
      return Err("'File' object has no attribute 'file_path'");
    }
    var sorted: seq<HdlFile> := [];
    var rest := fs;
    while rest != {}
      invariant rest <= fs
      invariant SortedByPath(sorted)
      invariant forall f :: f in sorted <==> f in fs && f !in rest
      invariant |sorted| + |rest| == |fs|
      decreases |rest|
    {
      var f :| f in rest;
      sorted := InsertByPath(sorted, f);
      rest := rest - {f};
    }
    return Ok(sorted);
  }
}
