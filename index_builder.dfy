/**
 * parseIndex and the source-line handling of readAptSource (src/aptreader.ts):
 * the records that iterRecords yields are folded into package descriptions
 * through the table of value parsers, one description per paragraph that
 * names a Package, pushed onto the caller's list in input order.
 */
module PackageIndex {
  import opened Wrappers
  import opened Text
  import opened ByteRecords
  import FieldValues
  import Contacts

  /** The value parsers of the table. */
  datatype Parser =
    | Id           // the text as it is
    | Int          // parseInt(x, 10)
    | SpaceList    // splitspace
    | LineList     // splitlines
    | Paragraph    // multiline
    | Person       // toContactInfo
    | People       // multiContactInfo
    | CommaList    // commas
    | Files        // filespecs

  /** A parsed field value. */
  datatype Value =
    | Text(text: string)
    | Number(number: Option<int>)   // None is NaN
    | Words(words: seq<string>)
    | Contact(contact: Contacts.Contact)
    | ContactList(contacts: seq<Contacts.Contact>)
    | FileList(files: seq<FieldValues.FileSpec>)

  /** The dispatch table, keyed by field name with the hyphens already dropped by iterRecords. */
  const ValueParsers: map<string, Parser> := map[
    "Size" := Int, "InstalledSize" := Int,
    "Package" := Id, "RepoBase" := Id, "Version" := Id,
    "Source" := Id, "Format" := Id, "Directory" := Id,
    "Architecture" := SpaceList, "Description" := Paragraph, "Filename" := Id,
    "MD5sum" := Id, "SHA256" := Id,
    "Maintainer" := Person, "OriginalMaintainer" := Person, "Uploaders" := People,
    "PackageList" := LineList, "TestsuiteTriggers" := CommaList, "Tag" := CommaList,
    "Binary" := CommaList, "Files" := Files, "ChecksumsSha256" := Files, "ChecksumsSha1" := Files,
    "Depends" := CommaList, "PreDepends" := CommaList, "Recommends" := CommaList,
    "Suggests" := CommaList, "BuildDepends" := CommaList, "BuildConflicts" := CommaList,
    "BuildConflictsIndep" := CommaList, "BuildDependsIndep" := CommaList,
    "BuildDependsArch" := CommaList, "BuiltUsing" := CommaList,
    "Provides" := CommaList, "Breaks" := CommaList, "Enhances" := CommaList,
    "Replaces" := CommaList, "Conflicts" := CommaList,
    "RubyVersions" := SpaceList, "LuaVersions" := SpaceList
  ]

  /** A parser applied to a value; None when it throws (only the contact parsers can). */
  function Apply(p: Parser, v: string): Option<Value> {
    match p
    case Id => Some(Text(v))
    case Int => Some(Number(FieldValues.ParseInt(v)))
    case SpaceList => Some(Words(FieldValues.SplitSpace(v)))
    case LineList => Some(Words(FieldValues.SplitLines(v)))
    case Paragraph => Some(Text(FieldValues.Multiline(v)))
    case Person =>
      (match Contacts.ToContactInfo(v) case Some(c) => Some(Contact(c)) case None => None)
    case People =>
      (match Contacts.MultiContactInfo(v) case Some(cs) => Some(ContactList(cs)) case None => None)
    case CommaList => Some(Words(FieldValues.Commas(v)))
    case Files => Some(FileList(FieldValues.SpecsFrom(v, 0)))
  }

  /** The parser call, running the loop-based parsers where the source has loops. */
  method ApplyParser(p: Parser, v: string) returns (r: Option<Value>)
    ensures r == Apply(p, v)
  {
    match p {
      case People =>
        var cs := Contacts.MultiContacts(v);
        r := if cs.Some? then Some(ContactList(cs.value)) else None;
      case Files =>
        var specs := FieldValues.FileSpecs(v);
        r := Some(FileList(specs));
      case _ =>
        r := Apply(p, v);
    }
  }

  /** A package description: its properties by name. */
  datatype PkgInfo = PkgInfo(fields: map<string, Value>)

  /** The description every paragraph starts from. */
  function Fresh(base: string, kind: string): PkgInfo {
    PkgInfo(map["RepoBase" := Text(base), "type" := Text(kind)])
  }

  /** `pkg.Package` is truthy: present and not the empty string. */
  predicate HasPackage(p: PkgInfo) {
    "Package" in p.fields && p.fields["Package"] != Text([])
  }

  /** One field: a name the table lacks is ignored, otherwise the trimmed value is parsed and stored. */
  function Assign(pkg: PkgInfo, name: string, value: string): Option<PkgInfo> {
    if name !in ValueParsers then Some(pkg)
    else match Apply(ValueParsers[name], Trim(value))
      case None => None
      case Some(v) => Some(PkgInfo(pkg.fields[name := v]))
  }

  /** The description, pushed if it names a package. */
  function Flush(out: seq<PkgInfo>, pkg: PkgInfo): seq<PkgInfo> {
    if HasPackage(pkg) then out + [pkg] else out
  }

  /** parseIndex as a fold over the records, from the description `pkg` and the list `out`. */
  function Fold(rs: seq<Record>, base: string, kind: string, pkg: PkgInfo, out: seq<PkgInfo>): Option<seq<PkgInfo>>
    decreases |rs|
  {
    if rs == [] then Some(Flush(out, pkg))
    else match rs[0]
      case Boundary => Fold(rs[1..], base, kind, Fresh(base, kind), Flush(out, pkg))
      case Field(name, value) =>
        match Assign(pkg, name, value)
        case None => None
        case Some(p) => Fold(rs[1..], base, kind, p, out)
  }

  /** parseIndex: the descriptions of `chunks` pushed onto `pkgs`; None when a parser throws. */
  method ParseIndex(chunks: seq<seq<Byte>>, base: string, kind: string, pkgs: seq<PkgInfo>)
    returns (r: Option<seq<PkgInfo>>)
    ensures r == Fold(Records(chunks), base, kind, Fresh(base, kind), pkgs)
  {
    var rs := IterRecords(chunks);
    var pkg := Fresh(base, kind);
    var out := pkgs;
    var i := 0;
    while i < |rs|
      invariant i <= |rs|
      invariant Fold(rs[i..], base, kind, pkg, out) == Fold(rs, base, kind, Fresh(base, kind), pkgs)
      decreases |rs| - i
    {
      assert rs[i..][0] == rs[i] && rs[i..][1..] == rs[i + 1..];
      match rs[i] {
        case Boundary =>
          if HasPackage(pkg) {
            out := out + [pkg];
          }
          pkg := Fresh(base, kind);
        case Field(name, value) =>
          if name in ValueParsers {
            var v := ApplyParser(ValueParsers[name], Trim(value));
            if v.None? {
              return None;
            }
            pkg := PkgInfo(pkg.fields[name := v.value]);
          }
      }
      i := i + 1;
    }
    assert rs[i..] == [];
    if HasPackage(pkg) {
      out := out + [pkg];
    }
    return Some(out);
  }

  // ---------------------------------------------------------------------------
  // What parseIndex builds, paragraph by paragraph
  // ---------------------------------------------------------------------------

  /** The records between boundaries; always at least one (possibly empty) paragraph. */
  function Paragraphs(rs: seq<Record>): (ps: seq<seq<Record>>)
    ensures |ps| >= 1
    decreases |rs|
  {
    if rs == [] then [[]]
    else
      var rest := Paragraphs(rs[1..]);
      if rs[0].Boundary? then [[]] + rest else [[rs[0]] + rest[0]] + rest[1..]
  }

  /** The fields of one paragraph applied in order to `pkg`. */
  function Describe(fs: seq<Record>, pkg: PkgInfo): Option<PkgInfo>
    decreases |fs|
  {
    if fs == [] then Some(pkg)
    else match fs[0]
      case Boundary => Describe(fs[1..], pkg)
      case Field(name, value) =>
        match Assign(pkg, name, value)
        case None => None
        case Some(p) => Describe(fs[1..], p)
  }

  function Keep(p: PkgInfo): seq<PkgInfo> {
    if HasPackage(p) then [p] else []
  }

  /** The descriptions of the paragraphs that name a package, the first one continuing `pkg`. */
  function PackagesFrom(ps: seq<seq<Record>>, base: string, kind: string, pkg: PkgInfo): Option<seq<PkgInfo>>
    requires |ps| >= 1
    decreases |ps|
  {
    match Describe(ps[0], pkg)
    case None => None
    case Some(p) =>
      if |ps| == 1 then Some(Keep(p))
      else match PackagesFrom(ps[1..], base, kind, Fresh(base, kind))
        case None => None
        case Some(more) => Some(Keep(p) + more)
  }

  /** The descriptions a record stream defines: one per paragraph naming a package, in order. */
  function Packages(rs: seq<Record>, base: string, kind: string): Option<seq<PkgInfo>> {
    PackagesFrom(Paragraphs(rs), base, kind, Fresh(base, kind))
  }

  function Prefixed(out: seq<PkgInfo>, r: Option<seq<PkgInfo>>): Option<seq<PkgInfo>> {
    match r
    case None => None
    case Some(more) => Some(out + more)
  }

  lemma {:induction false} PackagesFromField(rs: seq<Record>, base: string, kind: string, pkg: PkgInfo)
    requires rs != [] && rs[0].Field?
    ensures PackagesFrom(Paragraphs(rs), base, kind, pkg) ==
      match Assign(pkg, rs[0].name, rs[0].value)
      case None => None
      case Some(p) => PackagesFrom(Paragraphs(rs[1..]), base, kind, p)
  {
    var rest := Paragraphs(rs[1..]);
    var ps := [[rs[0]] + rest[0]] + rest[1..];
    assert ps[0][1..] == rest[0] && ps[1..] == rest[1..];
  }

  lemma {:induction false} PackagesFromBoundary(rs: seq<Record>, base: string, kind: string, pkg: PkgInfo)
    requires rs != [] && rs[0].Boundary?
    ensures PackagesFrom(Paragraphs(rs), base, kind, pkg) ==
      Prefixed(Keep(pkg), PackagesFrom(Paragraphs(rs[1..]), base, kind, Fresh(base, kind)))
  {
    var rest := Paragraphs(rs[1..]);
    assert ([[]] + rest)[1..] == rest;
  }

  lemma {:induction false} FoldBoundaryStep(rs: seq<Record>, base: string, kind: string, pkg: PkgInfo, out: seq<PkgInfo>)
    requires rs != [] && rs[0].Boundary?
    requires Fold(rs[1..], base, kind, Fresh(base, kind), Flush(out, pkg)) ==
      Prefixed(Flush(out, pkg), PackagesFrom(Paragraphs(rs[1..]), base, kind, Fresh(base, kind)))
    ensures Fold(rs, base, kind, pkg, out) == Prefixed(out, PackagesFrom(Paragraphs(rs), base, kind, pkg))
  {
    PackagesFromBoundary(rs, base, kind, pkg);
    assert Fold(rs, base, kind, pkg, out) == Fold(rs[1..], base, kind, Fresh(base, kind), Flush(out, pkg));
    PrefixedFlush(out, pkg, PackagesFrom(Paragraphs(rs[1..]), base, kind, Fresh(base, kind)));
  }

  lemma PrefixedFlush(out: seq<PkgInfo>, pkg: PkgInfo, r: Option<seq<PkgInfo>>)
    ensures Prefixed(Flush(out, pkg), r) == Prefixed(out, Prefixed(Keep(pkg), r))
  {
    match r
    case None =>
    case Some(more) => assert Flush(out, pkg) + more == out + (Keep(pkg) + more);
  }

  lemma {:induction false} FoldFieldStep(rs: seq<Record>, base: string, kind: string, pkg: PkgInfo, out: seq<PkgInfo>)
    requires rs != [] && rs[0].Field?
    requires Assign(pkg, rs[0].name, rs[0].value).Some? ==>
      var p := Assign(pkg, rs[0].name, rs[0].value).value;
      Fold(rs[1..], base, kind, p, out) == Prefixed(out, PackagesFrom(Paragraphs(rs[1..]), base, kind, p))
    ensures Fold(rs, base, kind, pkg, out) == Prefixed(out, PackagesFrom(Paragraphs(rs), base, kind, pkg))
  {
    PackagesFromField(rs, base, kind, pkg);
  }

  /** The fold that parseIndex performs pushes exactly the paragraph descriptions, after what `out` held. */
  lemma {:induction false} FoldIsPackages(rs: seq<Record>, base: string, kind: string, pkg: PkgInfo, out: seq<PkgInfo>)
    ensures Fold(rs, base, kind, pkg, out) == Prefixed(out, PackagesFrom(Paragraphs(rs), base, kind, pkg))
    decreases |rs|
  {
    if rs == [] {
      assert out + [] == out;
    } else if rs[0].Boundary? {
      FoldIsPackages(rs[1..], base, kind, Fresh(base, kind), Flush(out, pkg));
      FoldBoundaryStep(rs, base, kind, pkg, out);
    } else {
      var a := Assign(pkg, rs[0].name, rs[0].value);
      if a.Some? {
        FoldIsPackages(rs[1..], base, kind, a.value, out);
      }
      FoldFieldStep(rs, base, kind, pkg, out);
    }
  }

  /** parseIndex leaves the entries already in the list alone and appends the paragraph descriptions. */
  lemma {:induction false} ParseIndexAppends(chunks: seq<seq<Byte>>, base: string, kind: string, pkgs: seq<PkgInfo>)
    ensures Fold(Records(chunks), base, kind, Fresh(base, kind), pkgs) ==
      Prefixed(pkgs, Packages(Records(chunks), base, kind))
  {
    FoldIsPackages(Records(chunks), base, kind, Fresh(base, kind), pkgs);
  }

  // --- what each description holds

  /** Assign touches at most the named property, and only a name of the table. */
  lemma AssignFrame(pkg: PkgInfo, name: string, value: string)
    requires Assign(pkg, name, value).Some?
    ensures var p := Assign(pkg, name, value).value;
      (forall k :: k != name ==> (k in p.fields <==> k in pkg.fields))
      && (forall k :: k != name && k in p.fields ==> p.fields[k] == pkg.fields[k])
      && (name !in ValueParsers ==> p == pkg)
  {
  }

  /** A repeated field overwrites the earlier value: only the last one counts. */
  lemma AssignOverwrites(pkg: PkgInfo, name: string, v1: string, v2: string)
    requires Assign(pkg, name, v1).Some?
    ensures Assign(Assign(pkg, name, v1).value, name, v2) == Assign(pkg, name, v2)
  {
    if name in ValueParsers {
      match Apply(ValueParsers[name], Trim(v2))
      case None =>
      case Some(v) =>
        assert pkg.fields[name := Apply(ValueParsers[name], Trim(v1)).value][name := v] == pkg.fields[name := v];
    }
  }

  /** A text-valued field holds the value trimmed. */
  lemma AssignTrims(pkg: PkgInfo, name: string, value: string)
    requires name in ValueParsers && ValueParsers[name] == Id
    ensures Assign(pkg, name, value) == Some(PkgInfo(pkg.fields[name := Text(Trim(value))]))
    ensures Trimmed(Trim(value))
  {
    TrimIsInfix(value);
  }

  lemma {:induction false} DescribeKeepsKind(fs: seq<Record>, pkg: PkgInfo, kind: string)
    requires "type" in pkg.fields && pkg.fields["type"] == Text(kind)
    requires Describe(fs, pkg).Some?
    ensures "type" in Describe(fs, pkg).value.fields && Describe(fs, pkg).value.fields["type"] == Text(kind)
    decreases |fs|
  {
    if fs != [] {
      match fs[0]
      case Boundary => DescribeKeepsKind(fs[1..], pkg, kind);
      case Field(name, value) =>
        assert "type" !in ValueParsers;
        DescribeKeepsKind(fs[1..], Assign(pkg, name, value).value, kind);
    }
  }

  /** Every description pushed names a package and keeps the type it started with. */
  lemma {:induction false} PackagesFromShape(ps: seq<seq<Record>>, base: string, kind: string, pkg: PkgInfo)
    requires |ps| >= 1
    requires "type" in pkg.fields && pkg.fields["type"] == Text(kind)
    requires PackagesFrom(ps, base, kind, pkg).Some?
    ensures forall p :: p in PackagesFrom(ps, base, kind, pkg).value ==>
      HasPackage(p) && "type" in p.fields && p.fields["type"] == Text(kind)
    decreases |ps|
  {
    DescribeKeepsKind(ps[0], pkg, kind);
    if |ps| > 1 {
      PackagesFromShape(ps[1..], base, kind, Fresh(base, kind));
    }
  }

  lemma PackagesShape(rs: seq<Record>, base: string, kind: string)
    requires Packages(rs, base, kind).Some?
    ensures forall p :: p in Packages(rs, base, kind).value ==>
      HasPackage(p) && "type" in p.fields && p.fields["type"] == Text(kind)
  {
    PackagesFromShape(Paragraphs(rs), base, kind, Fresh(base, kind));
  }

  // ---------------------------------------------------------------------------
  // readAptSource: the source line, the index files it names, and their reading
  // ---------------------------------------------------------------------------

  /** spec.split(/\s/g): the pieces between single whitespace characters (empty pieces included). */
  function SplitAtSpaces(s: string): (pieces: seq<string>)
    ensures |pieces| >= 1
  {
    if s == [] then [[]]
    else
      var rest := SplitAtSpaces(s[1..]);
      if IsSpace(s[0]) then [[]] + rest else [[s[0]] + rest[0]] + rest[1..]
  }

  lemma {:induction false} SplitAtSpacesOfToken(p: string, rest: string)
    requires NoSpace(p)
    ensures SplitAtSpaces(p + " " + rest) == [p] + SplitAtSpaces(rest)
  {
    if p == [] {
      assert p + " " + rest == [' '] + rest;
      assert ([' '] + rest)[1..] == rest;
    } else {
      assert (p + " " + rest)[1..] == p[1..] + " " + rest;
      SplitAtSpacesOfToken(p[1..], rest);
      assert [p[0]] + p[1..] == p;
    }
  }

  lemma {:induction false} SplitAtSpacesOfWord(p: string)
    requires NoSpace(p)
    ensures SplitAtSpaces(p) == [p]
  {
    if p != [] {
      SplitAtSpacesOfWord(p[1..]);
      assert [p[0]] + p[1..] == p;
    }
  }

  /** Tokens without whitespace, joined by single spaces, split back into the same tokens. */
  lemma {:induction false} SplitAtSpacesOfJoin(tokens: seq<string>)
    requires |tokens| >= 1
    requires forall k :: 0 <= k < |tokens| ==> NoSpace(tokens[k])
    ensures SplitAtSpaces(Join(tokens, " ")) == tokens
  {
    if |tokens| == 1 {
      SplitAtSpacesOfWord(tokens[0]);
    } else {
      SplitAtSpacesOfJoin(tokens[1..]);
      SplitAtSpacesOfToken(tokens[0], Join(tokens[1..], " "));
    }
  }

  /** One component's index file. */
  datatype IndexFile = IndexFile(url: string, base: string, kind: string)

  /** A missing piece of the source line reads as the text "undefined". */
  function PieceOr(pieces: seq<string>, i: nat): string {
    if i < |pieces| then pieces[i] else "undefined"
  }

  /**
   * The index files a source line names: `deb` lines name binary-<arch>/Packages
   * and give records of type "bin"; every other line names source/Sources and
   * gives type "src". One file per component, in order.
   */
  function IndexFiles(spec: string, arch: string): (files: seq<IndexFile>)
    ensures |files| == if |SplitAtSpaces(spec)| > 3 then |SplitAtSpaces(spec)| - 3 else 0
  {
    var pieces := SplitAtSpaces(spec);
    var deb := pieces[0] == "deb";
    var kind := if deb then "bin" else "src";
    var dir := if deb then "binary-" + arch else "source";
    var name := if deb then "Packages" else "Sources";
    var base, dist := PieceOr(pieces, 1), PieceOr(pieces, 2);
    var components := if |pieces| > 3 then pieces[3..] else [];
    seq(|components|, i requires 0 <= i < |components| =>
      IndexFile(base + "/dists/" + dist + "/" + components[i] + "/" + dir + "/" + name, base, kind))
  }

  /** The URL of one index file. */
  function IndexUrl(base: string, dist: string, component: string, dir: string, name: string): string {
    base + "/dists/" + dist + "/" + component + "/" + dir + "/" + name
  }

  /** A well-formed line "deb <base> <dist> <components...>" names binary-<arch>/Packages of every component. */
  lemma {:induction false} IndexFilesOfDeb(base: string, dist: string, components: seq<string>, arch: string)
    requires NoSpace(base) && NoSpace(dist) && |components| >= 1
    requires forall k :: 0 <= k < |components| ==> NoSpace(components[k])
    ensures var files := IndexFiles(Join(["deb", base, dist] + components, " "), arch);
      |files| == |components|
      && forall i :: 0 <= i < |components| ==>
        files[i] == IndexFile(IndexUrl(base, dist, components[i], "binary-" + arch, "Packages"), base, "bin")
  {
    var tokens := ["deb", base, dist] + components;
    assert NoSpace("deb");
    forall k | 0 <= k < |tokens| ensures NoSpace(tokens[k]) {
      if k >= 3 {
        assert tokens[k] == components[k - 3];
      }
    }
    SplitAtSpacesOfJoin(tokens);
    assert tokens[3..] == components;
  }

  /** Any other first word names source/Sources. */
  lemma {:induction false} IndexFilesOfOther(kind: string, base: string, dist: string, components: seq<string>, arch: string)
    requires kind != "deb"
    requires NoSpace(kind) && NoSpace(base) && NoSpace(dist) && |components| >= 1
    requires forall k :: 0 <= k < |components| ==> NoSpace(components[k])
    ensures var files := IndexFiles(Join([kind, base, dist] + components, " "), arch);
      |files| == |components|
      && forall i :: 0 <= i < |components| ==>
        files[i] == IndexFile(IndexUrl(base, dist, components[i], "source", "Sources"), base, "src")
  {
    var tokens := [kind, base, dist] + components;
    forall k | 0 <= k < |tokens| ensures NoSpace(tokens[k]) {
      if k >= 3 {
        assert tokens[k] == components[k - 3];
      }
    }
    SplitAtSpacesOfJoin(tokens);
    assert tokens[3..] == components;
  }

  /** A line of three pieces or fewer names no file at all. */
  lemma {:induction false} IndexFilesWithoutComponents(spec: string, arch: string)
    requires |SplitAtSpaces(spec)| <= 3
    ensures IndexFiles(spec, arch) == []
  {
  }

  /**
   * The descriptions read from the files, each file's pushed after the ones
   * before it. `get` stands for the HTTP fetch of the file or, failing that,
   * of its .gz version, inflated; None when neither answers 200, and the
   * file is then skipped.
   */
  function ReadFiles(files: seq<IndexFile>, get: string -> Option<seq<seq<Byte>>>, pkgs: seq<PkgInfo>): Option<seq<PkgInfo>>
    decreases |files|
  {
    if files == [] then Some(pkgs)
    else match get(files[0].url)
      case None => ReadFiles(files[1..], get, pkgs)
      case Some(chunks) =>
        match Fold(Records(chunks), files[0].base, files[0].kind, Fresh(files[0].base, files[0].kind), pkgs)
        case None => None
        case Some(more) => ReadFiles(files[1..], get, more)
  }

  /** readAptSource, with the files read one after the other. */
  method ReadAptSource(spec: string, arch: string, get: string -> Option<seq<seq<Byte>>>)
    returns (r: Option<seq<PkgInfo>>)
    ensures r == ReadFiles(IndexFiles(spec, arch), get, [])
  {
    var files := IndexFiles(spec, arch);
    var pkgs: seq<PkgInfo> := [];
    for k := 0 to |files|
      invariant ReadFiles(files[k..], get, pkgs) == ReadFiles(files, get, [])
    {
      assert files[k..][0] == files[k] && files[k..][1..] == files[k + 1..];
      var chunks := get(files[k].url);
      if chunks.Some? {
        var more := ParseIndex(chunks.value, files[k].base, files[k].kind, pkgs);
        if more.None? {
          return None;
        }
        pkgs := more.value;
      }
    }
    assert files[|files|..] == [];
    return Some(pkgs);
  }

  /** Reading never drops what earlier files gave: every description read is kept, in order. */
  lemma {:induction false} ReadFilesAppends(files: seq<IndexFile>, get: string -> Option<seq<seq<Byte>>>, pkgs: seq<PkgInfo>)
    requires ReadFiles(files, get, pkgs).Some?
    ensures pkgs <= ReadFiles(files, get, pkgs).value
    decreases |files|
  {
    if files != [] {
      match get(files[0].url)
      case None => ReadFilesAppends(files[1..], get, pkgs);
      case Some(chunks) =>
        var f := files[0];
        FoldIsPackages(Records(chunks), f.base, f.kind, Fresh(f.base, f.kind), pkgs);
        var more := Fold(Records(chunks), f.base, f.kind, Fresh(f.base, f.kind), pkgs).value;
        ReadFilesAppends(files[1..], get, more);
    }
  }

  /** Every description read names a package and carries the type of the file it came from. */
  lemma {:induction false} ReadFilesShape(files: seq<IndexFile>, get: string -> Option<seq<seq<Byte>>>, pkgs: seq<PkgInfo>)
    requires ReadFiles(files, get, pkgs).Some?
    requires forall p :: p in pkgs ==> HasPackage(p) && "type" in p.fields
    requires forall k :: 0 <= k < |files| ==> files[k].kind == "bin" || files[k].kind == "src"
    ensures forall p :: p in ReadFiles(files, get, pkgs).value ==>
      HasPackage(p) && "type" in p.fields
    decreases |files|
  {
    if files != [] {
      match get(files[0].url)
      case None => ReadFilesShape(files[1..], get, pkgs);
      case Some(chunks) =>
        var f := files[0];
        FoldIsPackages(Records(chunks), f.base, f.kind, Fresh(f.base, f.kind), pkgs);
        var added := Packages(Records(chunks), f.base, f.kind).value;
        PackagesShape(Records(chunks), f.base, f.kind);
        ReadFilesShape(files[1..], get, pkgs + added);
    }
  }
}
