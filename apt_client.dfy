/**
 * The AptClient cache of src/index.ts: two maps from package name to the
 * latest description seen (binary and source packages), each with a slot for
 * the artifact bytes fetched on demand, and the time and records of the last
 * read of every source line. The clock and the HTTP fetches are parameters.
 */
module AptClient {
  import opened Wrappers
  import ByteRecords
  import VersionCmp
  import FieldValues
  import PackageIndex

  type PkgInfo = PackageIndex.PkgInfo
  type Byte = ByteRecords.Byte

  /** A binary package and its .deb bytes once fetched (null before). */
  datatype BinEntry = BinEntry(info: PkgInfo, bytes: Option<seq<Byte>>)

  /** A source package and its files by name once fetched (null before). */
  datatype SrcEntry = SrcEntry(info: PkgInfo, files: Option<map<string, seq<Byte>>>)

  /** What the client's methods throw. */
  datatype ClientError =
    | MissingVersion              // `Version` is undefined: version_cmp calls undefined.match
    | BadVersion(error: VersionCmp.VersionError)
    | MissingFiles(name: string)  // `Files` is undefined: for-of over undefined

  /** The three maps of the client. */
  datatype Cache = Cache(
    bin: map<string, BinEntry>,
    src: map<string, SrcEntry>,
    lastUpdated: map<string, (int, seq<PkgInfo>)>)

  // ---------------------------------------------------------------------------
  // Properties of a description
  // ---------------------------------------------------------------------------

  /** A property that holds text; None when it is absent. */
  function TextField(p: PkgInfo, key: string): Option<string> {
    if key in p.fields && p.fields[key].Text? then Some(p.fields[key].text) else None
  }

  /** A property as a template literal renders it, "undefined" when absent. */
  function Rendered(p: PkgInfo, key: string): string {
    match TextField(p, key) case Some(t) => t case None => "undefined"
  }

  /** `pkg.Package`, the key a description is stored under. */
  function Name(p: PkgInfo): string {
    match TextField(p, "Package") case Some(t) => t case None => []
  }

  /** `pkg.type === 'bin'`. */
  predicate IsBin(p: PkgInfo) {
    "type" in p.fields && p.fields["type"] == PackageIndex.Text("bin")
  }

  // ---------------------------------------------------------------------------
  // update
  // ---------------------------------------------------------------------------

  /** One record stored under its name, in the map its type selects, with an empty slot. */
  function Store(c: Cache, p: PkgInfo): Cache {
    if IsBin(p) then c.(bin := c.bin[Name(p) := BinEntry(p, None)])
    else c.(src := c.src[Name(p) := SrcEntry(p, None)])
  }

  /** The records stored one after the other. */
  function StoreAll(c: Cache, pkgs: seq<PkgInfo>): Cache
    decreases |pkgs|
  {
    if pkgs == [] then c else Store(StoreAll(c, pkgs[..|pkgs| - 1]), pkgs[|pkgs| - 1])
  }

  /** The last record of `pkgs` named `n` of the given kind, if any. */
  function LastNamed(pkgs: seq<PkgInfo>, n: string, bin: bool): (r: Option<PkgInfo>)
    ensures r.Some? ==> r.value in pkgs && Name(r.value) == n && IsBin(r.value) == bin
    decreases |pkgs|
  {
    if pkgs == [] then None
    else
      var p := pkgs[|pkgs| - 1];
      if Name(p) == n && IsBin(p) == bin then Some(p) else LastNamed(pkgs[..|pkgs| - 1], n, bin)
  }

  /**
   * Storing is last write wins: a name ends up holding the last record of its
   * kind that carries it, with an empty slot, whatever the versions; names no
   * record carries keep their entry; lastUpdated is not touched.
   */
  lemma {:induction false} StoreAllIsLastWriteWins(c: Cache, pkgs: seq<PkgInfo>)
    ensures var r := StoreAll(c, pkgs);
      r.lastUpdated == c.lastUpdated
      && (forall n :: n in r.bin <==> n in c.bin || LastNamed(pkgs, n, true).Some?)
      && (forall n :: n in r.src <==> n in c.src || LastNamed(pkgs, n, false).Some?)
      && (forall n :: n in r.bin ==>
            r.bin[n] == match LastNamed(pkgs, n, true) case Some(p) => BinEntry(p, None) case None => c.bin[n])
      && (forall n :: n in r.src ==>
            r.src[n] == match LastNamed(pkgs, n, false) case Some(p) => SrcEntry(p, None) case None => c.src[n])
    decreases |pkgs|
  {
    if pkgs != [] {
      StoreAllIsLastWriteWins(c, pkgs[..|pkgs| - 1]);
    }
  }

  lemma {:induction false} StoreAllAppend(c: Cache, p: seq<PkgInfo>, q: seq<PkgInfo>)
    ensures StoreAll(StoreAll(c, p), q) == StoreAll(c, p + q)
    decreases |q|
  {
    if q == [] {
      assert p + q == p;
    } else {
      StoreAllAppend(c, p, q[..|q| - 1]);
      assert (p + q)[..|p + q| - 1] == p + q[..|q| - 1];
    }
  }

  lemma {:induction false} StoreAllStamp(c: Cache, pkgs: seq<PkgInfo>, lu: map<string, (int, seq<PkgInfo>)>)
    ensures StoreAll(c.(lastUpdated := lu), pkgs) == StoreAll(c, pkgs).(lastUpdated := lu)
    decreases |pkgs|
  {
    if pkgs != [] {
      StoreAllStamp(c, pkgs[..|pkgs| - 1], lu);
    }
  }

  /** The records of a source line: readAptSource over the index files it names. */
  function Read(s: string, arch: string, get: string -> Option<seq<seq<Byte>>>): Option<seq<PkgInfo>> {
    PackageIndex.ReadFiles(PackageIndex.IndexFiles(s, arch), get, [])
  }

  /** The source was read less than `ttl` ago (caching is on only for a positive ttl). */
  predicate IsFresh(c: Cache, s: string, ttl: int, now: int) {
    ttl > 0 && s in c.lastUpdated && now - c.lastUpdated[s].0 < ttl
  }

  /**
   * updateSrc for one source: a fresh source is skipped without `clear` and
   * re-stored from its kept records with it; otherwise the source is read and
   * stamped. false when readAptSource throws, and then nothing changes.
   */
  function UpdateSource(c: Cache, s: string, arch: string, ttl: int, clear: bool, now: int,
                        get: string -> Option<seq<seq<Byte>>>): (Cache, bool)
  {
    if IsFresh(c, s, ttl, now) then
      if !clear then (c, true) else (StoreAll(c, c.lastUpdated[s].1), true)
    else match Read(s, arch, get)
      case None => (c, false)
      case Some(pkgs) => (StoreAll(c.(lastUpdated := c.lastUpdated[s := (now, pkgs)]), pkgs), true)
  }

  /** updateSrc over the sources, one after the other; true when none failed. */
  function UpdateSources(c: Cache, sources: seq<string>, arch: string, ttl: int, clear: bool, now: int,
                         get: string -> Option<seq<seq<Byte>>>): (Cache, bool)
    decreases |sources|
  {
    if sources == [] then (c, true)
    else
      var (c1, ok1) := UpdateSources(c, sources[..|sources| - 1], arch, ttl, clear, now, get);
      var (c2, ok2) := UpdateSource(c1, sources[|sources| - 1], arch, ttl, clear, now, get);
      (c2, ok1 && ok2)
  }

  /** The state update starts from: both package maps emptied when `clear`. */
  function Start(c: Cache, clear: bool): Cache {
    if clear then c.(bin := map[], src := map[]) else c
  }

  /** The records of the sources that were read, in order. */
  function AllReads(sources: seq<string>, arch: string, get: string -> Option<seq<seq<Byte>>>): seq<PkgInfo>
    decreases |sources|
  {
    if sources == [] then []
    else
      var rest := AllReads(sources[..|sources| - 1], arch, get);
      match Read(sources[|sources| - 1], arch, get) case Some(pkgs) => rest + pkgs case None => rest
  }

  /** lastUpdated after the sources were read at `now`: the sources read are stamped. */
  function Stamped(lu: map<string, (int, seq<PkgInfo>)>, sources: seq<string>, arch: string, now: int,
                   get: string -> Option<seq<seq<Byte>>>): map<string, (int, seq<PkgInfo>)>
    decreases |sources|
  {
    if sources == [] then lu
    else
      var rest := Stamped(lu, sources[..|sources| - 1], arch, now, get);
      match Read(sources[|sources| - 1], arch, get)
      case Some(pkgs) => rest[sources[|sources| - 1] := (now, pkgs)]
      case None => rest
  }

  /** Every source's read succeeds. */
  predicate AllRead(sources: seq<string>, arch: string, get: string -> Option<seq<seq<Byte>>>) {
    forall k :: 0 <= k < |sources| ==> Read(sources[k], arch, get).Some?
  }

  lemma AllReadStep(sources: seq<string>, arch: string, get: string -> Option<seq<seq<Byte>>>)
    requires sources != []
    ensures AllRead(sources, arch, get)
      == (AllRead(sources[..|sources| - 1], arch, get) && Read(sources[|sources| - 1], arch, get).Some?)
  {
    AllButLast(sources, sources[..|sources| - 1], s => Read(s, arch, get).Some?);
  }

  /** A property holds of every element iff it holds of all but the last and of the last. */
  lemma AllButLast<T>(xs: seq<T>, init: seq<T>, ok: T -> bool)
    requires xs != [] && init == xs[..|xs| - 1]
    ensures (forall k :: 0 <= k < |xs| ==> ok(xs[k]))
      == ((forall k :: 0 <= k < |init| ==> ok(init[k])) && ok(xs[|xs| - 1]))
  {
    var n := |xs| - 1;
    if (forall k :: 0 <= k < n ==> ok(init[k])) && ok(xs[n]) {
      forall k | 0 <= k < |xs| ensures ok(xs[k]) {
        if k < n {
          assert xs[k] == init[k];
        }
      }
    }
  }

  /** One stale source read after the ones before it, in the form UpdateWithoutCache states. */
  lemma {:induction false} UpdateWithoutCacheStep(c: Cache, lu: map<string, (int, seq<PkgInfo>)>, before: seq<PkgInfo>, s: string,
                               arch: string, ttl: int, clear: bool, now: int, get: string -> Option<seq<seq<Byte>>>)
    requires ttl <= 0
    ensures var lu' := match Read(s, arch, get) case Some(pkgs) => lu[s := (now, pkgs)] case None => lu;
      var after := match Read(s, arch, get) case Some(pkgs) => before + pkgs case None => before;
      UpdateSource(StoreAll(c.(lastUpdated := lu), before), s, arch, ttl, clear, now, get)
        == (StoreAll(c.(lastUpdated := lu'), after), Read(s, arch, get).Some?)
  {
    StoreAllStamp(c, before, lu);
    match Read(s, arch, get)
    case None =>
    case Some(pkgs) =>
      StoreAllStamp(c, before, lu[s := (now, pkgs)]);
      StoreAllAppend(c.(lastUpdated := lu[s := (now, pkgs)]), before, pkgs);
  }

  /**
   * Without caching every source is read: the maps hold the records of every
   * source read successfully, stored in order, every such source is stamped
   * with `now`, and the update succeeds iff every read does.
   */
  lemma {:induction false} UpdateWithoutCache(c: Cache, sources: seq<string>, arch: string, ttl: int, clear: bool,
                                              now: int, get: string -> Option<seq<seq<Byte>>>)
    requires ttl <= 0
    ensures UpdateSources(c, sources, arch, ttl, clear, now, get)
      == (StoreAll(c.(lastUpdated := Stamped(c.lastUpdated, sources, arch, now, get)), AllReads(sources, arch, get)),
          AllRead(sources, arch, get))
    decreases |sources|
  {
    if sources == [] {
      assert c.(lastUpdated := c.lastUpdated) == c;
    } else {
      var init := sources[..|sources| - 1];
      UpdateWithoutCache(c, init, arch, ttl, clear, now, get);
      UpdateWithoutCacheStep(c, Stamped(c.lastUpdated, init, arch, now, get), AllReads(init, arch, get),
        sources[|sources| - 1], arch, ttl, clear, now, get);
      AllReadStep(sources, arch, get);
    }
  }

  /** Without `clear`, sources that are all still fresh leave everything as it was. */
  lemma {:induction false} UpdateFreshKeepsAll(c: Cache, sources: seq<string>, arch: string, ttl: int, now: int,
                                               get: string -> Option<seq<seq<Byte>>>)
    requires forall k :: 0 <= k < |sources| ==> IsFresh(c, sources[k], ttl, now)
    ensures UpdateSources(c, sources, arch, ttl, false, now, get) == (c, true)
    decreases |sources|
  {
    if sources != [] {
      UpdateFreshKeepsAll(c, sources[..|sources| - 1], arch, ttl, now, get);
    }
  }

  /** The kept records of the sources, in order. */
  function Kept(lu: map<string, (int, seq<PkgInfo>)>, sources: seq<string>): seq<PkgInfo>
    decreases |sources|
  {
    if sources == [] then []
    else
      var s := sources[|sources| - 1];
      Kept(lu, sources[..|sources| - 1]) + (if s in lu then lu[s].1 else [])
  }

  /** With `clear`, sources that are all still fresh are re-stored from their kept records, nothing is read. */
  lemma {:induction false} UpdateFreshRestores(c: Cache, sources: seq<string>, arch: string, ttl: int, now: int,
                                               get: string -> Option<seq<seq<Byte>>>)
    requires forall k :: 0 <= k < |sources| ==> IsFresh(c, sources[k], ttl, now)
    ensures UpdateSources(c, sources, arch, ttl, true, now, get) == (StoreAll(c, Kept(c.lastUpdated, sources)), true)
    decreases |sources|
  {
    if sources != [] {
      var init := sources[..|sources| - 1];
      UpdateFreshRestores(c, init, arch, ttl, now, get);
      var c1 := StoreAll(c, Kept(c.lastUpdated, init));
      StoreAllIsLastWriteWins(c, Kept(c.lastUpdated, init));
      assert c1.lastUpdated == c.lastUpdated;
      StoreAllAppend(c, Kept(c.lastUpdated, init), c.lastUpdated[sources[|sources| - 1]].1);
    }
  }

  /** A stale source whose read succeeds is stamped with `now` and its records; a failed read changes nothing. */
  lemma UpdateSourceStamps(c: Cache, s: string, arch: string, ttl: int, clear: bool, now: int,
                           get: string -> Option<seq<seq<Byte>>>)
    requires !IsFresh(c, s, ttl, now)
    ensures var (c2, ok) := UpdateSource(c, s, arch, ttl, clear, now, get);
      match Read(s, arch, get)
      case None => c2 == c && !ok
      case Some(pkgs) => ok && c2.lastUpdated == c.lastUpdated[s := (now, pkgs)]
  {
    match Read(s, arch, get)
    case None =>
    case Some(pkgs) =>
      StoreAllIsLastWriteWins(c.(lastUpdated := c.lastUpdated[s := (now, pkgs)]), pkgs);
  }

  // ---------------------------------------------------------------------------
  // Artifact slots
  // ---------------------------------------------------------------------------

  /** `${RepoBase}/${Filename}`. */
  function BinUrl(p: PkgInfo): string {
    Rendered(p, "RepoBase") + "/" + Rendered(p, "Filename")
  }

  /** `${RepoBase}/${Directory}/${name}`. */
  function SrcUrl(p: PkgInfo, name: string): string {
    Rendered(p, "RepoBase") + "/" + Rendered(p, "Directory") + "/" + name
  }

  /** The slots of the requested binary packages, filled where they were empty. */
  function FillBin(m: map<string, BinEntry>, names: seq<string>, fetch: string -> seq<Byte>): map<string, BinEntry> {
    map n | n in m :: if n in names && m[n].bytes.None? then BinEntry(m[n].info, Some(fetch(BinUrl(m[n].info)))) else m[n]
  }

  /** The filled slots of the requested names. */
  function BinFiles(m: map<string, BinEntry>, names: seq<string>): map<string, seq<Byte>> {
    map n | n in names && n in m && m[n].bytes.Some? :: m[n].bytes.value
  }

  /**
   * A slot is fetched only while it is empty: the requested entries keep their
   * description and end up filled, bytes already there are kept, and the other
   * entries are untouched.
   */
  lemma FillBinFetchesOnce(m: map<string, BinEntry>, names: seq<string>, fetch: string -> seq<Byte>)
    ensures var r := FillBin(m, names, fetch);
      r.Keys == m.Keys
      && (forall n :: n in m ==> r[n].info == m[n].info)
      && (forall n :: n in m && n in names ==>
            r[n].bytes == Some(match m[n].bytes case Some(b) => b case None => fetch(BinUrl(m[n].info))))
      && (forall n :: n in m && n !in names ==> r[n] == m[n])
  {
  }

  /** A second request returns the bytes of the first, whatever a fetch would now answer. */
  lemma FillBinIsMemo(m: map<string, BinEntry>, names: seq<string>, f: string -> seq<Byte>, g: string -> seq<Byte>)
    ensures FillBin(FillBin(m, names, f), names, g) == FillBin(m, names, f)
  {
  }

  /** The slots after one more name: only that name's slot can change. */
  lemma FillBinStep(m: map<string, BinEntry>, names: seq<string>, k: nat, fetch: string -> seq<Byte>)
    requires k < |names|
    ensures var before := FillBin(m, names[..k], fetch);
      var n := names[k];
      FillBin(m, names[..k + 1], fetch)
        == if n in before && before[n].bytes.None?
           then before[n := BinEntry(before[n].info, Some(fetch(BinUrl(before[n].info))))]
           else before
  {
    assert forall x :: x in names[..k + 1] <==> x in names[..k] || x == names[k];
  }

  /** The bytes returned after one more name: that name's slot, the earlier names' as before. */
  lemma BinFilesStep(m: map<string, BinEntry>, m': map<string, BinEntry>, names: seq<string>, k: nat)
    requires k < |names|
    requires m.Keys == m'.Keys
    requires forall x :: x in m && x != names[k] ==> m'[x] == m[x]
    requires names[k] in m' ==> m'[names[k]].bytes.Some?
    ensures BinFiles(m', names[..k + 1])
      == if names[k] in m' then BinFiles(m, names[..k])[names[k] := m'[names[k]].bytes.value] else BinFiles(m, names[..k])
  {
    assert forall x :: x in names[..k + 1] <==> x in names[..k] || x == names[k];
  }

  /** The names of a file list. */
  function SpecNames(specs: seq<FieldValues.FileSpec>): set<string> {
    set k | 0 <= k < |specs| :: specs[k].name
  }

  /** The `Files` list of a description; None when `info.Files` is undefined. */
  function FileSpecsOf(p: PkgInfo): Option<seq<FieldValues.FileSpec>> {
    if "Files" in p.fields && p.fields["Files"].FileList? then Some(p.fields["Files"].files) else None
  }

  /** The object of one source package's files, keyed by file name. */
  function SrcObject(p: PkgInfo, specs: seq<FieldValues.FileSpec>, fetch: string -> seq<Byte>): map<string, seq<Byte>> {
    map x | x in SpecNames(specs) :: fetch(SrcUrl(p, x))
  }

  /** An entry whose slot is empty and whose description has no `Files`: getSrcFiles throws on it. */
  predicate Broken(m: map<string, SrcEntry>, n: string) {
    n in m && m[n].files.None? && FileSpecsOf(m[n].info).None?
  }

  /** The first requested name that makes getSrcFiles throw, or |names|. */
  function FirstBroken(m: map<string, SrcEntry>, names: seq<string>): (k: nat)
    ensures k <= |names|
    ensures k < |names| ==> Broken(m, names[k])
    ensures forall j :: 0 <= j < k ==> !Broken(m, names[j])
    decreases |names|
  {
    if names == [] then 0
    else if Broken(m, names[0]) then 0
    else 1 + FirstBroken(m, names[1..])
  }

  /** The slots of the requested source packages, filled where they were empty. */
  function FillSrc(m: map<string, SrcEntry>, names: seq<string>, fetch: string -> seq<Byte>): map<string, SrcEntry> {
    map n | n in m :: if n in names && m[n].files.None? && FileSpecsOf(m[n].info).Some?
      then SrcEntry(m[n].info, Some(SrcObject(m[n].info, FileSpecsOf(m[n].info).value, fetch)))
      else m[n]
  }

  /** The filled slots of the requested names. */
  function SrcFiles(m: map<string, SrcEntry>, names: seq<string>): map<string, map<string, seq<Byte>>> {
    map n | n in names && n in m && m[n].files.Some? :: m[n].files.value
  }

  /** A second request returns the files of the first. */
  lemma FillSrcIsMemo(m: map<string, SrcEntry>, names: seq<string>, f: string -> seq<Byte>, g: string -> seq<Byte>)
    ensures FillSrc(FillSrc(m, names, f), names, g) == FillSrc(m, names, f)
  {
  }

  /** A filled source slot holds one download per listed file name, from the package's directory. */
  lemma FillSrcFetchesFiles(m: map<string, SrcEntry>, names: seq<string>, fetch: string -> seq<Byte>, n: string)
    requires n in m && n in names && m[n].files.None? && !Broken(m, n)
    ensures var files := FillSrc(m, names, fetch)[n].files.value;
      var specs := FileSpecsOf(m[n].info).value;
      files.Keys == SpecNames(specs)
      && forall x :: x in files ==> files[x] == fetch(SrcUrl(m[n].info, x))
  {
  }

  /** The slot of one more requested name, filled if it is empty and lists its files. */
  function FillSrcSlot(m: map<string, SrcEntry>, n: string, fetch: string -> seq<Byte>): map<string, SrcEntry> {
    if n in m && m[n].files.None? && FileSpecsOf(m[n].info).Some?
    then m[n := SrcEntry(m[n].info, Some(SrcObject(m[n].info, FileSpecsOf(m[n].info).value, fetch)))]
    else m
  }

  /** Filling is unaffected by names already past: one more requested name fills at most its own slot. */
  lemma FillSrcStep(m: map<string, SrcEntry>, names: seq<string>, k: nat, fetch: string -> seq<Byte>)
    requires k < |names|
    ensures FillSrc(m, names[..k + 1], fetch) == FillSrcSlot(FillSrc(m, names[..k], fetch), names[k], fetch)
  {
    assert forall x :: x in names[..k + 1] <==> x in names[..k] || x == names[k];
  }

  /** The files returned after one more name: that name's slot, the earlier names' as before. */
  lemma SrcFilesStep(m: map<string, SrcEntry>, m': map<string, SrcEntry>, names: seq<string>, k: nat)
    requires k < |names|
    requires m.Keys == m'.Keys
    requires forall x :: x in m && x != names[k] ==> m'[x] == m[x]
    requires names[k] in m' ==> m'[names[k]].files.Some?
    ensures SrcFiles(m', names[..k + 1])
      == if names[k] in m' then SrcFiles(m, names[..k])[names[k] := m'[names[k]].files.value] else SrcFiles(m, names[..k])
  {
    assert forall x :: x in names[..k + 1] <==> x in names[..k] || x == names[k];
  }

  /** Filling neither creates nor removes an entry that makes getSrcFiles throw. */
  lemma FillSrcKeepsBroken(m: map<string, SrcEntry>, names: seq<string>, fetch: string -> seq<Byte>, n: string)
    ensures Broken(FillSrc(m, names, fetch), n) <==> Broken(m, n)
  {
  }

  /** One pass of getSrcFiles' loop over a name that does not make it throw keeps its invariants. */
  lemma {:induction false} GetSrcStep(m0: map<string, SrcEntry>, names: seq<string>, k: nat, fetch: string -> seq<Byte>,
                   files: map<string, map<string, seq<Byte>>>, after: map<string, SrcEntry>,
                   files': map<string, map<string, seq<Byte>>>)
    requires k < |names| && k <= FirstBroken(m0, names)
    requires files == SrcFiles(FillSrc(m0, names[..k], fetch), names[..k])
    requires !Broken(FillSrc(m0, names[..k], fetch), names[k])
    requires after == FillSrcSlot(FillSrc(m0, names[..k], fetch), names[k], fetch)
    requires files' == if names[k] in after then files[names[k] := after[names[k]].files.value] else files
    ensures k + 1 <= FirstBroken(m0, names)
    ensures after == FillSrc(m0, names[..k + 1], fetch)
    ensures files' == SrcFiles(after, names[..k + 1])
  {
    var before := FillSrc(m0, names[..k], fetch);
    FillSrcKeepsBroken(m0, names[..k], fetch, names[k]);
    FillSrcStep(m0, names, k, fetch);
    SrcFilesStep(before, after, names, k);
  }

  /** getSrcFiles throws at the name whose slot is empty and lists no files. */
  lemma {:induction false} GetSrcStop(m0: map<string, SrcEntry>, names: seq<string>, k: nat, fetch: string -> seq<Byte>)
    requires k < |names| && k <= FirstBroken(m0, names)
    requires Broken(FillSrc(m0, names[..k], fetch), names[k])
    ensures FirstBroken(m0, names) == k
  {
    FillSrcKeepsBroken(m0, names[..k], fetch, names[k]);
  }

  // ---------------------------------------------------------------------------
  // Queries
  // ---------------------------------------------------------------------------

  /** `bin_pkgs.get(name) || src_pkgs.get(name)`: the binary entry first. */
  function Lookup(c: Cache, name: string): Option<PkgInfo> {
    if name in c.bin then Some(c.bin[name].info)
    else if name in c.src then Some(c.src[name].info)
    else None
  }

  /** version_cmp(tracked.Version, version). */
  function Compare(p: PkgInfo, version: string): Result<VersionCmp.Cmp, ClientError> {
    match TextField(p, "Version")
    case None => Failure(MissingVersion)
    case Some(v) =>
      match VersionCmp.VersionCmp(v, version)
      case Failure(e) => Failure(BadVersion(e))
      case Success(c) => Success(c)
  }

  /**
   * isLatest: an untracked name is latest; otherwise version_cmp(tracked, given) < 1.
   * It answers exactly the queries that do not throw; apart from a NaN comparison it
   * is "no tracked entry is newer", the answer areAllLatest gives for the query alone,
   * and on NaN the two disagree.
   */
  function Latest(c: Cache, name: string, version: string): (r: Result<bool, ClientError>)
    ensures r.Success? <==> Answerable(c, (name, version))
    ensures Answerable(c, (name, version)) && !Incomparable(c, (name, version)) ==>
      r == Success(!Newer(c, (name, version)))
    ensures !Incomparable(c, (name, version)) ==> r == AllLatest(c, [(name, version)])
    ensures Incomparable(c, (name, version)) ==>
      r == Success(false) && AllLatest(c, [(name, version)]) == Success(true)
  {
    var qs := [(name, version)];
    assert qs[0] == (name, version) && qs[1..] == [];
    match Lookup(c, name)
    case None => Success(true)
    case Some(p) =>
      match Compare(p, version)
      case Failure(e) => Failure(e)
      case Success(Num(n)) => Success(n < 1)
      case Success(NaN) => Success(false)
  }

  /** The tracked version itself is always the latest. */
  lemma LatestOfOwnVersion(c: Cache, name: string, v: string)
    requires Lookup(c, name).Some? && TextField(Lookup(c, name).value, "Version") == Some(v)
    requires VersionCmp.BreakVersion(v).Success?
    ensures Latest(c, name, v) == Success(true)
  {
    VersionCmp.VersionCmpReflexive(v);
  }

  /**
   * Wherever version_cmp gives a number, isLatest answers as the intended
   * comparison (an empty digit run counting as zero) would.
   */
  lemma LatestAgreesWithFixed(c: Cache, name: string, version: string, v: string)
    requires Lookup(c, name).Some? && TextField(Lookup(c, name).value, "Version") == Some(v)
    requires VersionCmp.VersionCmp(v, version).Success? && VersionCmp.VersionCmp(v, version).value.Num?
    ensures Latest(c, name, version) == Success(VersionCmp.VersionCmpFixed(v, version).value < 1)
  {
    VersionCmp.VersionCmpAgreesWithFixed(v, version);
  }

  /** A binary package shadows a source package of the same name. */
  lemma LatestPrefersBin(c: Cache, name: string, version: string)
    requires name in c.bin
    ensures Latest(c, name, version) == Latest(c.(src := c.src - {name}), name, version)
    ensures Latest(c, name, version) == Latest(Cache(map[name := c.bin[name]], map[], map[]), name, version)
  {
  }

  /** areAllLatest as a fold: false at the first tracked entry newer than the given version. */
  function AllLatest(c: Cache, queries: seq<(string, string)>): Result<bool, ClientError>
    decreases |queries|
  {
    if queries == [] then Success(true)
    else
      var (name, version) := queries[0];
      match Lookup(c, name)
      case None => AllLatest(c, queries[1..])
      case Some(p) =>
        match Compare(p, version)
        case Failure(e) => Failure(e)
        case Success(Num(n)) => if n > 0 then Success(false) else AllLatest(c, queries[1..])
        case Success(NaN) => AllLatest(c, queries[1..])
  }

  /** Query `k` names a tracked entry that compares strictly greater than the given version. */
  predicate Newer(c: Cache, q: (string, string)) {
    Lookup(c, q.0).Some? && Compare(Lookup(c, q.0).value, q.1) .Success?
    && Compare(Lookup(c, q.0).value, q.1).value.Num? && Compare(Lookup(c, q.0).value, q.1).value.n > 0
  }

  /** The tracked entry for the query compares to its version as NaN. */
  predicate Incomparable(c: Cache, q: (string, string)) {
    Lookup(c, q.0).Some? && Compare(Lookup(c, q.0).value, q.1) == Success(VersionCmp.NaN)
  }

  /** The query can be answered without an exception. */
  predicate Answerable(c: Cache, q: (string, string)) {
    Lookup(c, q.0).None? || Compare(Lookup(c, q.0).value, q.1).Success?
  }

  /**
   * When every query can be answered, areAllLatest is false iff some tracked
   * entry is strictly newer than the version given for it (so true on no queries).
   */
  lemma {:induction false} AllLatestIsNoneNewer(c: Cache, queries: seq<(string, string)>)
    requires forall k :: 0 <= k < |queries| ==> Answerable(c, queries[k])
    ensures AllLatest(c, queries) == Success(!exists k :: 0 <= k < |queries| && Newer(c, queries[k]))
    decreases |queries|
  {
    if queries != [] {
      AllLatestIsNoneNewer(c, queries[1..]);
      assert forall k :: 1 <= k < |queries| ==> queries[k] == queries[1..][k - 1];
      if !Newer(c, queries[0]) {
        if exists k :: 0 <= k < |queries| && Newer(c, queries[k]) {
          var k :| 0 <= k < |queries| && Newer(c, queries[k]);
          assert queries[1..][k - 1] == queries[k];
        }
      }
    }
  }

  /** On a NaN comparison areAllLatest answers "latest" where isLatest answers false. */
  lemma AllLatestDisagreesOnNaN()
    ensures var p := PackageIndex.PkgInfo(map["Version" := PackageIndex.Text("1a")]);
      var c := Cache(map["p" := BinEntry(p, None)], map[], map[]);
      Latest(c, "p", "1a1") == Success(false) && AllLatest(c, [("p", "1a1")]) == Success(true)
  {
    var p := PackageIndex.PkgInfo(map["Version" := PackageIndex.Text("1a")]);
    var c := Cache(map["p" := BinEntry(p, None)], map[], map[]);
    assert Lookup(c, "p") == Some(p);
    assert TextField(p, "Version") == Some("1a");
    VersionCmp.VersionCmpNaNExample();
    LatestOnNaN(c, "p", "1a1");
  }

  /** A NaN comparison of a tracked entry: isLatest says false, areAllLatest on that query alone says true. */
  lemma LatestOnNaN(c: Cache, name: string, version: string)
    requires Lookup(c, name).Some? && Compare(Lookup(c, name).value, version) == Success(VersionCmp.NaN)
    ensures Latest(c, name, version) == Success(false) && AllLatest(c, [(name, version)]) == Success(true)
  {
    var qs := [(name, version)];
    assert qs[0] == (name, version) && qs[1..] == [];
  }

  // ---------------------------------------------------------------------------
  // The client
  // ---------------------------------------------------------------------------

  class Client {
    const sources: seq<string>
    const arch: string
    /** The cachetime in whole milliseconds: positive turns caching on (see README). */
    const ttl: int
    var binPkgs: map<string, BinEntry>
    var srcPkgs: map<string, SrcEntry>
    var lastUpdated: map<string, (int, seq<PkgInfo>)>
    /** An update threw, so updatePromise stays rejected and every later update throws too. */
    var failed: bool

    function State(): Cache
      reads this
    {
      Cache(binPkgs, srcPkgs, lastUpdated)
    }

    /** new AptClient(sources, arch, cachetime), all maps empty. */
    constructor(sources: seq<string>, arch: string, ttl: int)
      ensures this.sources == sources && this.arch == arch && this.ttl == ttl
      ensures binPkgs == map[] && srcPkgs == map[] && lastUpdated == map[] && !failed
    {
      this.sources := sources;
      this.arch := arch;
      this.ttl := ttl;
      binPkgs := map[];
      srcPkgs := map[];
      lastUpdated := map[];
      failed := false;
    }

    /** The loop storing the records read (or kept) for a source. */
    method StoreRecords(pkgs: seq<PkgInfo>)
      modifies this
      ensures State() == StoreAll(old(State()), pkgs) && failed == old(failed)
    {
      ghost var c0 := State();
      for k := 0 to |pkgs|
        invariant State() == StoreAll(c0, pkgs[..k]) && failed == old(failed)
      {
        assert pkgs[..k + 1][..k] == pkgs[..k];
        var p := pkgs[k];
        if IsBin(p) {
          binPkgs := binPkgs[Name(p) := BinEntry(p, None)];
        } else {
          srcPkgs := srcPkgs[Name(p) := SrcEntry(p, None)];
        }
      }
      assert pkgs[..|pkgs|] == pkgs;
    }

    /** updateSrc for one source. */
    method UpdateOne(s: string, arch: string, ttl: int, clear: bool, now: int,
                     get: string -> Option<seq<seq<Byte>>>) returns (ok: bool)
      modifies this
      ensures (State(), ok) == UpdateSource(old(State()), s, arch, ttl, clear, now, get) && failed == old(failed)
    {
      if ttl > 0 && s in lastUpdated && now - lastUpdated[s].0 < ttl {
        if !clear {
          return true;
        }
        StoreRecords(lastUpdated[s].1);
        return true;
      }
      var pkgs := PackageIndex.ReadAptSource(s, arch, get);
      if pkgs.None? {
        return false;
      }
      lastUpdated := lastUpdated[s := (now, pkgs.value)];
      StoreRecords(pkgs.value);
      return true;
    }

    /**
     * update(sources, arch, cachetime, clear) at time `now`, reading index
     * files through `get`; false when it throws.
     */
    method Update(sources: seq<string>, arch: string, ttl: int, clear: bool, now: int,
                  get: string -> Option<seq<seq<Byte>>>) returns (ok: bool)
      modifies this
      ensures old(failed) ==> !ok && failed && State() == old(State())
      ensures !old(failed) ==>
        (State(), ok) == UpdateSources(Start(old(State()), clear), sources, arch, ttl, clear, now, get)
        && failed == !ok
    {
      if failed {
        return false;
      }
      if clear {
        binPkgs := map[];
        srcPkgs := map[];
      }
      ghost var c0 := State();
      ok := true;
      for k := 0 to |sources|
        invariant (State(), ok) == UpdateSources(c0, sources[..k], arch, ttl, clear, now, get)
        invariant !failed
      {
        assert sources[..k + 1][..k] == sources[..k];
        var one := UpdateOne(sources[k], arch, ttl, clear, now, get);
        ok := ok && one;
      }
      assert sources[..|sources|] == sources;
      failed := !ok;
    }

    /** getPkgInfo: the binary and the source description of every requested name that has one. */
    method GetPkgInfo(names: seq<string>) returns (bin: map<string, PkgInfo>, src: map<string, PkgInfo>)
      ensures bin == map n | n in names && n in binPkgs :: binPkgs[n].info
      ensures src == map n | n in names && n in srcPkgs :: srcPkgs[n].info
    {
      bin, src := map[], map[];
      for k := 0 to |names|
        invariant bin == map n | n in names[..k] && n in binPkgs :: binPkgs[n].info
        invariant src == map n | n in names[..k] && n in srcPkgs :: srcPkgs[n].info
      {
        assert forall n :: n in names[..k + 1] <==> n in names[..k] || n == names[k];
        var name := names[k];
        if name in binPkgs {
          bin := bin[name := binPkgs[name].info];
        }
        if name in srcPkgs {
          src := src[name := srcPkgs[name].info];
        }
      }
      assert names[..|names|] == names;
    }

    /** getBinFiles: the .deb bytes of every requested binary package, fetched once per slot. */
    method GetBinFiles(names: seq<string>, fetch: string -> seq<Byte>) returns (files: map<string, seq<Byte>>)
      modifies this
      ensures binPkgs == FillBin(old(binPkgs), names, fetch)
      ensures files == BinFiles(binPkgs, names)
      ensures srcPkgs == old(srcPkgs) && lastUpdated == old(lastUpdated) && failed == old(failed)
    {
      ghost var m0 := binPkgs;
      files := map[];
      for k := 0 to |names|
        invariant binPkgs == FillBin(m0, names[..k], fetch)
        invariant files == BinFiles(binPkgs, names[..k])
        invariant srcPkgs == old(srcPkgs) && lastUpdated == old(lastUpdated) && failed == old(failed)
      {
        FillBinStep(m0, names, k, fetch);
        var name := names[k];
        ghost var before := binPkgs;
        if name in binPkgs {
          var data := binPkgs[name];
          if data.bytes.None? {
            var bytes := fetch(BinUrl(data.info));
            binPkgs := binPkgs[name := BinEntry(data.info, Some(bytes))];
          }
          BinFilesStep(before, binPkgs, names, k);
          files := files[name := binPkgs[name].bytes.value];
        } else {
          BinFilesStep(before, binPkgs, names, k);
        }
      }
      assert names[..|names|] == names;
    }

    /** The files of one source package, downloaded one by one into an object keyed by name. */
    method FetchSrcFiles(info: PkgInfo, specs: seq<FieldValues.FileSpec>, fetch: string -> seq<Byte>)
      returns (obj: map<string, seq<Byte>>)
      ensures obj == SrcObject(info, specs, fetch)
    {
      obj := map[];
      for k := 0 to |specs|
        invariant obj == SrcObject(info, specs[..k], fetch)
      {
        assert SpecNames(specs[..k + 1]) == SpecNames(specs[..k]) + {specs[k].name} by {
          assert forall j :: 0 <= j < k ==> specs[..k + 1][j] == specs[..k][j];
        }
        var x := specs[k].name;
        obj := obj[x := fetch(SrcUrl(info, x))];
      }
      assert specs[..|specs|] == specs;
    }

    /**
     * getSrcFiles: the files of every requested source package, fetched once
     * per slot; it throws at the first requested package with an empty slot
     * and no `Files`, after filling the slots of the names before it.
     */
    method GetSrcFiles(names: seq<string>, fetch: string -> seq<Byte>)
      returns (r: Result<map<string, map<string, seq<Byte>>>, ClientError>)
      modifies this
      ensures var k := FirstBroken(old(srcPkgs), names);
        srcPkgs == FillSrc(old(srcPkgs), names[..k], fetch)
        && (k < |names| ==> r == Failure(MissingFiles(names[k])))
        && (k == |names| ==> r == Success(SrcFiles(srcPkgs, names)))
      ensures binPkgs == old(binPkgs) && lastUpdated == old(lastUpdated) && failed == old(failed)
    {
      ghost var m0 := srcPkgs;
      var files := map[];
      for k := 0 to |names|
        invariant k <= FirstBroken(m0, names)
        invariant srcPkgs == FillSrc(m0, names[..k], fetch)
        invariant files == SrcFiles(srcPkgs, names[..k])
        invariant binPkgs == old(binPkgs) && lastUpdated == old(lastUpdated) && failed == old(failed)
      {
        var name := names[k];
        ghost var files0 := files;
        var ok := FillSlot(name, fetch);
        if !ok {
          GetSrcStop(m0, names, k, fetch);
          return Failure(MissingFiles(name));
        }
        if name in srcPkgs {
          files := files[name := srcPkgs[name].files.value];
        }
        GetSrcStep(m0, names, k, fetch, files0, srcPkgs, files);
      }
      assert names[..|names|] == names;
      return Success(files);
    }

    /** One requested source package: fill its empty slot, or report that it has no `Files` to fill it from. */
    method FillSlot(name: string, fetch: string -> seq<Byte>) returns (ok: bool)
      modifies this
      ensures ok == !Broken(old(srcPkgs), name)
      ensures ok ==> srcPkgs == FillSrcSlot(old(srcPkgs), name, fetch)
      ensures ok && name in srcPkgs ==> srcPkgs[name].files.Some?
      ensures !ok ==> srcPkgs == old(srcPkgs)
      ensures binPkgs == old(binPkgs) && lastUpdated == old(lastUpdated) && failed == old(failed)
    {
      if name in srcPkgs {
        var data := srcPkgs[name];
        if data.files.None? {
          var specs := FileSpecsOf(data.info);
          if specs.None? {
            return false;
          }
          var obj := FetchSrcFiles(data.info, specs.value, fetch);
          srcPkgs := srcPkgs[name := SrcEntry(data.info, Some(obj))];
        }
      }
      return true;
    }

    /** isLatest over the cached packages. */
    function IsLatest(name: string, version: string): (r: Result<bool, ClientError>)
      reads this
      ensures r.Success? <==> Answerable(State(), (name, version))
      ensures Answerable(State(), (name, version)) && !Incomparable(State(), (name, version)) ==>
        r == Success(!Newer(State(), (name, version)))
      ensures !Incomparable(State(), (name, version)) ==> r == AllLatest(State(), [(name, version)])
      ensures Incomparable(State(), (name, version)) ==> r == Success(false)
    {
      Latest(State(), name, version)
    }

    /**
     * areLatest: one [name, isLatest] pair per query, in order; an exception
     * ends the sequence after the pairs already yielded.
     */
    method AreLatest(queries: seq<(string, string)>)
      returns (answers: seq<(string, bool)>, error: Option<ClientError>)
      ensures |answers| <= |queries|
      ensures forall k :: 0 <= k < |answers| ==>
        Latest(State(), queries[k].0, queries[k].1).Success?
        && answers[k] == (queries[k].0, Latest(State(), queries[k].0, queries[k].1).value)
      ensures error.None? <==> |answers| == |queries|
      ensures error.Some? ==> Latest(State(), queries[|answers|].0, queries[|answers|].1) == Failure(error.value)
    {
      answers := [];
      for k := 0 to |queries|
        invariant |answers| == k
        invariant forall j :: 0 <= j < k ==>
          Latest(State(), queries[j].0, queries[j].1).Success?
          && answers[j] == (queries[j].0, Latest(State(), queries[j].0, queries[j].1).value)
      {
        var (name, version) := queries[k];
        var latest := Latest(State(), name, version);
        if latest.Failure? {
          return answers, Some(latest.error);
        }
        answers := answers + [(name, latest.value)];
      }
      error := None;
    }

    /** areAllLatest, with its early return. */
    method AreAllLatest(queries: seq<(string, string)>) returns (r: Result<bool, ClientError>)
      ensures r == AllLatest(State(), queries)
    {
      for k := 0 to |queries|
        invariant AllLatest(State(), queries[k..]) == AllLatest(State(), queries)
      {
        assert queries[k..][0] == queries[k] && queries[k..][1..] == queries[k + 1..];
        var (name, version) := queries[k];
        var data := Lookup(State(), name);
        if data.Some? {
          var c := Compare(data.value, version);
          if c.Failure? {
            return Failure(c.error);
          }
          if c.value.Num? && c.value.n > 0 {
            return Success(false);
          }
        }
      }
      assert queries[|queries|..] == [];
      return Success(true);
    }
  }
}
