/** The external content indexer: which files of the configured update and
    DLC folders are read, how each parsed metadata archive is classified into
    update candidates and DLC records, and what a commit registers with the
    content provider.

    Container and metadata parsing, the directory walk and the title-ID
    helpers are inputs: a folder is the listing the walk would produce, each
    file already paired with the metadata it yields, and the base-title and
    update-title mappings are function parameters. */
module ExternalContentIndex {
  import opened Wrappers
  import opened MachineIntegers
  import opened ContentTypes
  import opened UpdateOrder

  // ---------------------------------------------------------------------
  // Path filters
  // ---------------------------------------------------------------------

  /** ASCII lower-casing of one character, as `tolower` in the C locale. */
  function ToLowerChar(c: char): char {
    if 'A' <= c <= 'Z' then (c as int + 32) as char else c
  }

  /** Lower-cased copy of a path, character by character. */
  function ToLowerCopy(s: string): (r: string)
    ensures |r| == |s|
    ensures forall i :: 0 <= i < |s| ==> r[i] == ToLowerChar(s[i])
    ensures forall i :: 0 <= i < |r| ==> !('A' <= r[i] <= 'Z')
  {
    seq(|s|, i requires 0 <= i < |s| => ToLowerChar(s[i]))
  }

  /** Lower-casing commutes with taking a suffix. */
  lemma ToLowerCopySuffix(s: string, k: nat)
    requires k <= |s|
    ensures ToLowerCopy(s)[k..] == ToLowerCopy(s[k..])
  {
  }

  /** `pat` occurs in `s` starting at position `i`. */
  predicate OccursAt(s: string, pat: string, i: int) {
    0 <= i && i + |pat| <= |s| && s[i..i + |pat|] == pat
  }

  /** The last occurrence of `pat` that starts no later than `from`. */
  function RFindFrom(s: string, pat: string, from: int): (r: Option<nat>)
    ensures r.Some? ==> r.value <= from && OccursAt(s, pat, r.value)
    ensures r.Some? ==> forall j :: r.value < j <= from ==> !OccursAt(s, pat, j)
    ensures r.None? ==> forall j :: 0 <= j <= from ==> !OccursAt(s, pat, j)
    decreases from + 1
  {
    if from < 0 then None
    else if OccursAt(s, pat, from) then Some(from)
    else RFindFrom(s, pat, from - 1)
  }

  /** Search for the last occurrence of `pat`; `None` stands for `npos`. */
  function RFind(s: string, pat: string): (r: Option<nat>)
    ensures r.Some? ==> OccursAt(s, pat, r.value) && forall j :: r.value < j ==> !OccursAt(s, pat, j)
    ensures r.None? ==> forall j :: !OccursAt(s, pat, j)
  {
    RFindFrom(s, pat, |s| - |pat|)
  }

  predicate EndsWith(s: string, suffix: string) {
    |suffix| <= |s| && s[|s| - |suffix|..] == suffix
  }

  /** The indexer's suffix test: the string is long enough and the last
      occurrence of the suffix starts exactly where the suffix would. */
  predicate SuffixByRFind(s: string, suffix: string) {
    |s| >= |suffix| && RFind(s, suffix) == Some(|s| - |suffix|)
  }

  /** The "last occurrence at the end" test is exactly a suffix test. */
  lemma SuffixByRFindIsEndsWith(s: string, suffix: string)
    ensures SuffixByRFind(s, suffix) <==> EndsWith(s, suffix)
  {
    if EndsWith(s, suffix) {
      assert OccursAt(s, suffix, |s| - |suffix|);
    }
  }

  const ContainerExtension := ".nsp"
  const LooseMetaExtension := ".cnmt.nca"

  /** A file is opened as a submission package when its lower-cased path
      ends in `.nsp`. */
  predicate IsContainerPath(path: string) {
    SuffixByRFind(ToLowerCopy(path), ContainerExtension)
  }

  /** A file is opened as a loose metadata archive when its lower-cased path
      ends in `.cnmt.nca`. */
  predicate IsLooseMetaPath(path: string) {
    SuffixByRFind(ToLowerCopy(path), LooseMetaExtension)
  }

  /** The container filter is a case-insensitive extension test. */
  lemma ContainerPathIsCaseInsensitiveSuffix(path: string)
    ensures IsContainerPath(path) <==> |path| >= 4 && ToLowerCopy(path[|path| - 4..]) == ".nsp"
  {
    SuffixByRFindIsEndsWith(ToLowerCopy(path), ContainerExtension);
    if |path| >= 4 {
      ToLowerCopySuffix(path, |path| - 4);
    }
  }

  /** The loose-metadata filter is a case-insensitive extension test. */
  lemma LooseMetaPathIsCaseInsensitiveSuffix(path: string)
    ensures IsLooseMetaPath(path) <==> |path| >= 9 && ToLowerCopy(path[|path| - 9..]) == ".cnmt.nca"
  {
    SuffixByRFindIsEndsWith(ToLowerCopy(path), LooseMetaExtension);
    if |path| >= 9 {
      ToLowerCopySuffix(path, |path| - 9);
    }
  }

  /** No path passes both filters. */
  lemma FiltersAreDisjoint(path: string)
    ensures !(IsContainerPath(path) && IsLooseMetaPath(path))
  {
    var lower := ToLowerCopy(path);
    SuffixByRFindIsEndsWith(lower, ContainerExtension);
    SuffixByRFindIsEndsWith(lower, LooseMetaExtension);
    if IsContainerPath(path) && |lower| >= 9 {
      assert lower[|lower| - 1] == lower[|lower| - 4..][3];
      assert lower[|lower| - 1] == lower[|lower| - 9..][8];
    }
  }

  // ---------------------------------------------------------------------
  // Classification of one metadata archive
  // ---------------------------------------------------------------------

  /** The two title-ID helpers the indexer uses: a title's base title, and
      the update title of a base title. */
  datatype TitleIds = TitleIds(baseOf: TitleId -> TitleId, updateOf: TitleId -> TitleId)

  /** One parsed metadata archive. `sourceTitleId` is the ID its base title
      is derived from: the container's title-map key, or the archive's own
      title ID when it lies loose in a folder. `resolve` answers whether a
      record's content file was found (in the container's file map, or as
      `<nca id>.nca` beside the loose archive); the file found may be null. */
  datatype MetaSource = MetaSource(sourceTitleId: TitleId, cnmt: Cnmt, resolve: ContentRecord -> Option<File>)

  /** Index of the last record of type `rt` whose file was found. */
  function LastResolved(records: seq<ContentRecord>, rt: RecordType, resolve: ContentRecord -> Option<File>): (r: Option<nat>)
    ensures r.Some? ==> r.value < |records| && records[r.value].rtype == rt && resolve(records[r.value]).Some?
    ensures r.Some? ==> forall j :: r.value < j < |records| && records[j].rtype == rt ==> resolve(records[j]).None?
    ensures r.None? ==> forall j :: 0 <= j < |records| && records[j].rtype == rt ==> resolve(records[j]).None?
    decreases |records|
  {
    if |records| == 0 then None
    else
      var last := records[|records| - 1];
      if last.rtype == rt && resolve(last).Some? then Some(|records| - 1)
      else LastResolved(records[..|records| - 1], rt, resolve)
  }

  /** The files of an update candidate, filled record by record. */
  function CollectNcas(records: seq<ContentRecord>, resolve: ContentRecord -> Option<File>): (r: map<RecordType, File>)
    ensures forall rt :: rt in r ==> exists i :: 0 <= i < |records| && records[i].rtype == rt && resolve(records[i]) == Some(r[rt])
    decreases |records|
  {
    if |records| == 0 then map[]
    else
      var last := records[|records| - 1];
      var prev := CollectNcas(records[..|records| - 1], resolve);
      assert forall i :: 0 <= i < |records| - 1 ==> records[..|records| - 1][i] == records[i];
      match resolve(last)
      case Some(f) => prev[last.rtype := f]
      case None => prev
  }

  /** A candidate has a file of type `rt` exactly when some record of that
      type resolved, and it is the file of the last such record. */
  lemma {:induction false} CollectNcasLastWins(records: seq<ContentRecord>, resolve: ContentRecord -> Option<File>, rt: RecordType)
    ensures var i := LastResolved(records, rt, resolve);
            && (rt in CollectNcas(records, resolve) <==> i.Some?)
            && (i.Some? ==> CollectNcas(records, resolve)[rt] == resolve(records[i.value]).value)
    decreases |records|
  {
    if |records| > 0 {
      var init := records[..|records| - 1];
      CollectNcasLastWins(init, resolve, rt);
      var last := records[|records| - 1];
      if !(last.rtype == rt && resolve(last).Some?) {
        var i := LastResolved(init, rt, resolve);
        if i.Some? {
          assert records[i.value] == init[i.value];
        }
      }
    }
  }

  /** Positions of the records that resolve to a file, in record order. */
  function ResolvedIndices(records: seq<ContentRecord>, resolve: ContentRecord -> Option<File>): (idx: seq<nat>)
    ensures forall k :: 0 <= k < |idx| ==> idx[k] < |records| && resolve(records[idx[k]]).Some?
    ensures forall k, l :: 0 <= k < l < |idx| ==> idx[k] < idx[l]
    ensures forall i :: 0 <= i < |records| && resolve(records[i]).Some? ==> i in idx
    decreases |records|
  {
    if |records| == 0 then []
    else
      var n := |records| - 1;
      var prev := ResolvedIndices(records[..n], resolve);
      assert forall i :: 0 <= i < n ==> records[..n][i] == records[i];
      if resolve(records[n]).Some? then prev + [n] else prev
  }

  /** The DLC records of an add-on archive: one per resolved record, in
      record order, each under the archive's own title ID, and nothing
      else. */
  function DlcRecords(titleId: TitleId, records: seq<ContentRecord>, resolve: ContentRecord -> Option<File>): (r: seq<ParsedDlcRecord>)
    ensures var idx := ResolvedIndices(records, resolve);
            |r| == |idx| && forall k :: 0 <= k < |idx| ==> r[k] == ParsedDlcRecord(titleId, resolve(records[idx[k]]).value)
    decreases |records|
  {
    if |records| == 0 then []
    else
      var init := records[..|records| - 1];
      var last := records[|records| - 1];
      var prev := DlcRecords(titleId, init, resolve);
      assert forall i :: 0 <= i < |init| ==> init[i] == records[i];
      match resolve(last)
      case Some(f) => prev + [ParsedDlcRecord(titleId, f)]
      case None => prev
  }

  /** Every DLC record carries the archive's title ID, and every resolved
      record yields one. */
  lemma DlcRecordsMembership(titleId: TitleId, records: seq<ContentRecord>, resolve: ContentRecord -> Option<File>)
    ensures var r := DlcRecords(titleId, records, resolve);
            && |r| <= |records|
            && (forall k :: 0 <= k < |r| ==> r[k].titleId == titleId)
            && (forall i :: 0 <= i < |records| && resolve(records[i]).Some? ==> ParsedDlcRecord(titleId, resolve(records[i]).value) in r)
  {
    var r := DlcRecords(titleId, records, resolve);
    var idx := ResolvedIndices(records, resolve);
    IndicesBounded(idx, |records|);
    forall i | 0 <= i < |records| && resolve(records[i]).Some?
      ensures ParsedDlcRecord(titleId, resolve(records[i]).value) in r
    {
      var k :| 0 <= k < |idx| && idx[k] == i;
      assert r[k] == ParsedDlcRecord(titleId, resolve(records[i]).value);
    }
  }

  /** A strictly ascending list of positions below `n` has at most `n`
      entries. */
  lemma {:induction false} IndicesBounded(idx: seq<nat>, n: nat)
    requires forall k :: 0 <= k < |idx| ==> idx[k] < n
    requires forall k, l :: 0 <= k < l < |idx| ==> idx[k] < idx[l]
    ensures |idx| <= n
    decreases |idx|
  {
    if |idx| > 0 {
      var m := |idx| - 1;
      assert forall k :: 0 <= k < m ==> idx[..m][k] == idx[k];
      IndicesBounded(idx[..m], idx[m]);
    }
  }

  /** The update candidate an update archive contributes. */
  function Candidate(meta: MetaSource, ids: TitleIds): ParsedUpdate {
    var base := ids.baseOf(meta.sourceTitleId);
    ParsedUpdate(ids.updateOf(base), meta.cnmt.version, CollectNcas(meta.cnmt.records, meta.resolve))
  }

  /** The candidates already collected under `base`. */
  function Prior(idx: Index, base: TitleId): seq<ParsedUpdate> {
    if base in idx.updatesByTitle then idx.updatesByTitle[base] else []
  }

  /** Records one parsed metadata archive. An update is kept only when
      found in an update folder; an add-on is kept from either kind of
      folder; anything else is ignored. */
  function IndexMeta(idx: Index, meta: MetaSource, isUpdate: bool, ids: TitleIds): (r: Index)
    ensures isUpdate && meta.cnmt.kind == Update ==>
              var base := ids.baseOf(meta.sourceTitleId);
              && r.allDlc == idx.allDlc
              && r.updatesByTitle.Keys == idx.updatesByTitle.Keys + {base}
              && r.updatesByTitle[base] == Prior(idx, base) + [Candidate(meta, ids)]
              && forall b :: b in idx.updatesByTitle && b != base ==> r.updatesByTitle[b] == idx.updatesByTitle[b]
    ensures meta.cnmt.kind == AOC ==>
              && r.updatesByTitle == idx.updatesByTitle
              && r.allDlc == idx.allDlc + DlcRecords(meta.cnmt.titleId, meta.cnmt.records, meta.resolve)
    ensures meta.cnmt.kind == OtherTitleType || (meta.cnmt.kind == Update && !isUpdate) ==> r == idx
  {
    if isUpdate && meta.cnmt.kind == Update then
      var base := ids.baseOf(meta.sourceTitleId);
      idx.(updatesByTitle := idx.updatesByTitle[base := Prior(idx, base) + [Candidate(meta, ids)]])
    else if meta.cnmt.kind == AOC then
      idx.(allDlc := idx.allDlc + DlcRecords(meta.cnmt.titleId, meta.cnmt.records, meta.resolve))
    else
      idx
  }

  // ---------------------------------------------------------------------
  // Folder walks
  // ---------------------------------------------------------------------

  /** One non-directory entry met by the recursive walk of a folder.
      `container` lists, in title order, the metadata of each title the file
      yields when opened as a submission package (empty when it does not
      parse); `looseMeta` is the metadata it yields when opened as a loose
      metadata archive. */
  datatype DirEntry = DirEntry(path: string, isRegularFile: bool, container: seq<MetaSource>, looseMeta: Option<MetaSource>)

  /** A configured path: missing, a folder (its walk, in walk order) or a
      single file. */
  datatype ContentDir = Absent | Folder(entries: seq<DirEntry>) | SingleFile(file: DirEntry)

  /** The configured update and DLC paths. */
  datatype ContentPaths = ContentPaths(updateDirs: seq<ContentDir>, dlcDirs: seq<ContentDir>)

  /** `b` keeps everything `a` collected, in order: the DLC list and each
      base title's candidate list only grow at the end. */
  predicate Extends(a: Index, b: Index) {
    && a.allDlc <= b.allDlc
    && a.updatesByTitle.Keys <= b.updatesByTitle.Keys
    && forall t :: t in a.updatesByTitle ==> a.updatesByTitle[t] <= b.updatesByTitle[t]
  }

  lemma ExtendsTransitive(a: Index, b: Index, c: Index)
    requires Extends(a, b) && Extends(b, c)
    ensures Extends(a, c)
  {
    forall t | t in a.updatesByTitle
      ensures a.updatesByTitle[t] <= c.updatesByTitle[t]
    {
      var x, y, z := a.updatesByTitle[t], b.updatesByTitle[t], c.updatesByTitle[t];
      assert x == y[..|x|] && y == z[..|y|];
      assert z[..|y|][..|x|] == z[..|x|];
    }
    assert a.allDlc == c.allDlc[..|a.allDlc|] by {
      assert c.allDlc[..|b.allDlc|][..|a.allDlc|] == c.allDlc[..|a.allDlc|];
    }
  }

  /** Recording one archive never drops or reorders what was collected. */
  lemma IndexMetaExtends(idx: Index, meta: MetaSource, isUpdate: bool, ids: TitleIds)
    ensures Extends(idx, IndexMeta(idx, meta, isUpdate, ids))
  {
  }

  /** The metadata of a package's titles, recorded in title order. */
  function IndexMetas(idx: Index, metas: seq<MetaSource>, isUpdate: bool, ids: TitleIds): (r: Index)
    ensures Extends(idx, r)
    decreases |metas|
  {
    if |metas| == 0 then idx
    else
      var prev := IndexMetas(idx, metas[..|metas| - 1], isUpdate, ids);
      IndexMetaExtends(prev, metas[|metas| - 1], isUpdate, ids);
      ExtendsTransitive(idx, prev, IndexMeta(prev, metas[|metas| - 1], isUpdate, ids));
      IndexMeta(prev, metas[|metas| - 1], isUpdate, ids)
  }

  /** One file tried as a submission package: only a `.nsp` path, in any
      letter case, is opened. */
  function IndexContainerFile(idx: Index, e: DirEntry, isUpdate: bool, ids: TitleIds): (r: Index)
    ensures Extends(idx, r)
    ensures !IsContainerPath(e.path) ==> r == idx
  {
    if IsContainerPath(e.path) then IndexMetas(idx, e.container, isUpdate, ids) else idx
  }

  /** One file tried as a loose metadata archive: only a regular file whose
      path ends in `.cnmt.nca`, in any letter case, and that parses is
      recorded. */
  function IndexLooseFile(idx: Index, e: DirEntry, isUpdate: bool, ids: TitleIds): (r: Index)
    ensures Extends(idx, r)
    ensures !e.isRegularFile || !IsLooseMetaPath(e.path) || e.looseMeta.None? ==> r == idx
  {
    if e.isRegularFile && IsLooseMetaPath(e.path) && e.looseMeta.Some? then
      IndexMetaExtends(idx, e.looseMeta.value, isUpdate, ids);
      IndexMeta(idx, e.looseMeta.value, isUpdate, ids)
    else idx
  }

  /** The first walk: every file tried as a submission package. */
  function IndexContainers(idx: Index, entries: seq<DirEntry>, isUpdate: bool, ids: TitleIds): (r: Index)
    ensures Extends(idx, r)
    decreases |entries|
  {
    if |entries| == 0 then idx
    else
      var prev := IndexContainers(idx, entries[..|entries| - 1], isUpdate, ids);
      var r := IndexContainerFile(prev, entries[|entries| - 1], isUpdate, ids);
      ExtendsTransitive(idx, prev, r);
      r
  }

  /** The second walk: every regular file tried as a loose metadata archive. */
  function IndexLooseFiles(idx: Index, entries: seq<DirEntry>, isUpdate: bool, ids: TitleIds): (r: Index)
    ensures Extends(idx, r)
    decreases |entries|
  {
    if |entries| == 0 then idx
    else
      var prev := IndexLooseFiles(idx, entries[..|entries| - 1], isUpdate, ids);
      var r := IndexLooseFile(prev, entries[|entries| - 1], isUpdate, ids);
      ExtendsTransitive(idx, prev, r);
      r
  }

  /** One configured path: a folder is walked for packages and then for
      loose metadata; a single file is only tried as a package; a missing
      path contributes nothing. */
  function IndexDir(idx: Index, dir: ContentDir, isUpdate: bool, ids: TitleIds): (r: Index)
    ensures Extends(idx, r)
    ensures dir.Absent? ==> r == idx
  {
    match dir
    case Absent => idx
    case Folder(entries) =>
      var c := IndexContainers(idx, entries, isUpdate, ids);
      var r := IndexLooseFiles(c, entries, isUpdate, ids);
      ExtendsTransitive(idx, c, r);
      r
    case SingleFile(f) => IndexContainerFile(idx, f, isUpdate, ids)
  }

  function IndexDirs(idx: Index, dirs: seq<ContentDir>, isUpdate: bool, ids: TitleIds): (r: Index)
    ensures Extends(idx, r)
    decreases |dirs|
  {
    if |dirs| == 0 then idx
    else
      var prev := IndexDirs(idx, dirs[..|dirs| - 1], isUpdate, ids);
      var r := IndexDir(prev, dirs[|dirs| - 1], isUpdate, ids);
      ExtendsTransitive(idx, prev, r);
      r
  }

  /** A file that passes neither filter leaves the index of its folder
      unchanged, wherever it appears last. */
  lemma IgnoredFileChangesNothing(idx: Index, entries: seq<DirEntry>, e: DirEntry, isUpdate: bool, ids: TitleIds)
    requires !IsContainerPath(e.path) && !IsLooseMetaPath(e.path)
    ensures IndexDir(idx, Folder(entries + [e]), isUpdate, ids) == IndexDir(idx, Folder(entries), isUpdate, ids)
  {
    var all := entries + [e];
    assert all[..|all| - 1] == entries;
    var c := IndexContainers(idx, entries, isUpdate, ids);
    assert IndexContainers(idx, all, isUpdate, ids) == c;
    assert IndexLooseFiles(c, all, isUpdate, ids) == IndexLooseFiles(c, entries, isUpdate, ids);
  }

  // ---------------------------------------------------------------------
  // Folders scanned for DLC never contribute updates
  // ---------------------------------------------------------------------

  lemma {:induction false} DlcMetasAddNoUpdates(idx: Index, metas: seq<MetaSource>, ids: TitleIds)
    ensures IndexMetas(idx, metas, false, ids).updatesByTitle == idx.updatesByTitle
    decreases |metas|
  {
    if |metas| > 0 {
      DlcMetasAddNoUpdates(idx, metas[..|metas| - 1], ids);
    }
  }

  lemma {:induction false} DlcContainersAddNoUpdates(idx: Index, entries: seq<DirEntry>, ids: TitleIds)
    ensures IndexContainers(idx, entries, false, ids).updatesByTitle == idx.updatesByTitle
    decreases |entries|
  {
    if |entries| > 0 {
      var prev := IndexContainers(idx, entries[..|entries| - 1], false, ids);
      DlcContainersAddNoUpdates(idx, entries[..|entries| - 1], ids);
      DlcMetasAddNoUpdates(prev, entries[|entries| - 1].container, ids);
    }
  }

  lemma {:induction false} DlcLooseFilesAddNoUpdates(idx: Index, entries: seq<DirEntry>, ids: TitleIds)
    ensures IndexLooseFiles(idx, entries, false, ids).updatesByTitle == idx.updatesByTitle
    decreases |entries|
  {
    if |entries| > 0 {
      DlcLooseFilesAddNoUpdates(idx, entries[..|entries| - 1], ids);
    }
  }

  /** An update archive placed in a DLC folder is ignored. */
  lemma {:induction false} DlcDirsAddNoUpdates(idx: Index, dirs: seq<ContentDir>, ids: TitleIds)
    ensures IndexDirs(idx, dirs, false, ids).updatesByTitle == idx.updatesByTitle
    decreases |dirs|
  {
    if |dirs| > 0 {
      var prev := IndexDirs(idx, dirs[..|dirs| - 1], false, ids);
      DlcDirsAddNoUpdates(idx, dirs[..|dirs| - 1], ids);
      match dirs[|dirs| - 1]
      case Absent =>
      case Folder(entries) =>
        DlcContainersAddNoUpdates(prev, entries, ids);
        DlcLooseFilesAddNoUpdates(IndexContainers(prev, entries, false, ids), entries, ids);
      case SingleFile(f) =>
        DlcMetasAddNoUpdates(prev, f.container, ids);
    }
  }

  // ---------------------------------------------------------------------
  // Commit
  // ---------------------------------------------------------------------

  /** The registrations of one candidate's non-null files under `tid`. */
  function UpdateEntries(ncas: map<RecordType, File>, tid: TitleId): (r: set<Entry>)
    ensures forall e :: e in r <==> e.kind == Update && e.titleId == tid && e.rtype in ncas && ncas[e.rtype] == Handle(e.fileId)
  {
    set rt | rt in ncas && ncas[rt].Handle? :: Entry(Update, rt, tid, ncas[rt].id)
  }

  /** The title ID of the `i`-th distinct version: the canonical update ID
      plus `i + 1`, in 64-bit arithmetic. */
  function VariantTitleId(canonical: TitleId, i: nat): TitleId {
    (canonical + i + 1) % U64Modulus
  }

  /** Variant IDs never meet the canonical ID nor each other. */
  lemma VariantTitleIdsDistinct(canonical: TitleId, i: nat, j: nat)
    requires i < U64Modulus - 1 && j < U64Modulus - 1
    ensures VariantTitleId(canonical, i) != canonical
    ensures i != j ==> VariantTitleId(canonical, i) != VariantTitleId(canonical, j)
  {
    var a, b := canonical + i + 1, canonical + j + 1;
    assert a % U64Modulus == (if a < U64Modulus then a else a - U64Modulus);
    assert b % U64Modulus == (if b < U64Modulus then b else b - U64Modulus);
  }

  /** The candidate registered under the canonical update ID: the first
      discovered candidate of the highest version. */
  function LatestCandidate(vec: seq<ParsedUpdate>): (r: ParsedUpdate)
    requires |vec| > 0
    ensures r in vec
    ensures forall x :: x in vec ==> x.version <= r.version
    ensures |WithVersion(vec, r.version)| > 0 && r == WithVersion(vec, r.version)[0]
  {
    var d := DedupeByVersion(vec);
    DedupeLastIsLatest(vec);
    DedupeKeepsEarliestPerVersion(vec);
    d[|d| - 1]
  }

  /** The registrations of each distinct version under its variant ID. */
  function VariantSlices(d: seq<ParsedUpdate>, canonical: TitleId): (r: seq<set<Entry>>)
    ensures |r| == |d|
    ensures forall i :: 0 <= i < |d| ==> r[i] == UpdateEntries(d[i].ncas, VariantTitleId(canonical, i))
  {
    seq(|d|, i requires 0 <= i < |d| => UpdateEntries(d[i].ncas, VariantTitleId(canonical, i)))
  }

  /** The registrations of `slices[0..n)`, one after another. */
  function UnionAll(slices: seq<set<Entry>>, n: nat): multiset<Entry>
    requires n <= |slices|
    decreases n
  {
    if n == 0 then multiset{} else UnionAll(slices, n - 1) + multiset(slices[n - 1])
  }

  lemma {:induction false} UnionAllMembership(slices: seq<set<Entry>>, n: nat, e: Entry)
    requires n <= |slices|
    ensures e in UnionAll(slices, n) <==> exists i :: 0 <= i < n && e in slices[i]
    decreases n
  {
    if n > 0 {
      UnionAllMembership(slices, n - 1, e);
      if e in slices[n - 1] {
        assert 0 <= n - 1 < n && e in slices[n - 1];
      }
      if exists i :: 0 <= i < n && e in slices[i] {
        var i :| 0 <= i < n && e in slices[i];
        if i < n - 1 {
          assert exists i :: 0 <= i < n - 1 && e in slices[i];
        }
      }
    }
  }

  /** Registrations of the variants `d[0..n)`. */
  function VariantEntries(d: seq<ParsedUpdate>, canonical: TitleId, n: nat): (r: multiset<Entry>)
    requires n <= |d|
  {
    UnionAll(VariantSlices(d, canonical), n)
  }

  /** The `i`-th variant holds `e` under its own ID. */
  predicate HeldByVariant(d: seq<ParsedUpdate>, canonical: TitleId, i: nat, e: Entry)
    requires i < |d|
  {
    e in UpdateEntries(d[i].ncas, VariantTitleId(canonical, i))
  }

  /** A registration is among the variants exactly when one variant's
      candidate holds it under that variant's ID. */
  lemma VariantEntriesMembership(d: seq<ParsedUpdate>, canonical: TitleId, n: nat, e: Entry)
    requires n <= |d|
    ensures e in VariantEntries(d, canonical, n) <==> exists i :: 0 <= i < n && HeldByVariant(d, canonical, i, e)
  {
    var slices := VariantSlices(d, canonical);
    UnionAllMembership(slices, n, e);
    if exists i :: 0 <= i < n && e in slices[i] {
      var i :| 0 <= i < n && e in slices[i];
      assert HeldByVariant(d, canonical, i, e);
    }
    if exists i :: 0 <= i < n && HeldByVariant(d, canonical, i, e) {
      var i :| 0 <= i < n && HeldByVariant(d, canonical, i, e);
      assert e in slices[i];
    }
  }

  /** What one base title contributes: the latest candidate under the
      canonical update ID, and every distinct version under its own variant
      ID in ascending version order. */
  function CommitTitle(base: TitleId, vec: seq<ParsedUpdate>, ids: TitleIds): (r: multiset<Entry>)
    ensures forall e :: e in r ==> e.kind == Update
  {
    if |vec| == 0 then multiset{}
    else
      var d := DedupeByVersion(vec);
      var canonical := ids.updateOf(base);
      forall e | e in VariantEntries(d, canonical, |d|)
        ensures e.kind == Update
      {
        VariantEntriesMembership(d, canonical, |d|, e);
      }
      multiset(UpdateEntries(LatestCandidate(vec).ncas, canonical)) + VariantEntries(d, canonical, |d|)
  }

  /** Under the canonical update ID, a title registers exactly the non-null
      files of its latest candidate, each once. */
  lemma CanonicalHoldsLatest(base: TitleId, vec: seq<ParsedUpdate>, ids: TitleIds, e: Entry)
    requires 0 < |vec| < U64Modulus - 1
    requires e.titleId == ids.updateOf(base)
    ensures CommitTitle(base, vec, ids)[e] == (if e in UpdateEntries(LatestCandidate(vec).ncas, e.titleId) then 1 else 0)
  {
    var d := DedupeByVersion(vec);
    var canonical := ids.updateOf(base);
    VariantEntriesMembership(d, canonical, |d|, e);
    if e in VariantEntries(d, canonical, |d|) {
      var i :| 0 <= i < |d| && HeldByVariant(d, canonical, i, e);
      VariantTitleIdsDistinct(canonical, i, i);
      assert false;
    }
  }

  /** A registration of one base title comes from its latest candidate or
      from one of its variants. */
  lemma CommitTitleMembership(base: TitleId, vec: seq<ParsedUpdate>, ids: TitleIds, e: Entry)
    requires |vec| > 0
    ensures var d := DedupeByVersion(vec);
            e in CommitTitle(base, vec, ids) <==>
              e in UpdateEntries(LatestCandidate(vec).ncas, ids.updateOf(base)) || e in VariantEntries(d, ids.updateOf(base), |d|)
  {
  }

  /** A variant registration sits under that variant's own ID. */
  lemma HeldByVariantTitle(d: seq<ParsedUpdate>, canonical: TitleId, j: nat, e: Entry)
    requires j < |d| && HeldByVariant(d, canonical, j, e)
    ensures e.titleId == VariantTitleId(canonical, j)
  {
  }

  /** Under the `i`-th variant ID, a title registers exactly the non-null
      files of its `i`-th distinct version. */
  lemma VariantHoldsItsVersion(base: TitleId, vec: seq<ParsedUpdate>, ids: TitleIds, i: nat, e: Entry)
    requires 0 < |vec| < U64Modulus - 1
    requires i < |DedupeByVersion(vec)|
    requires e.titleId == VariantTitleId(ids.updateOf(base), i)
    ensures e in CommitTitle(base, vec, ids) <==> e in UpdateEntries(DedupeByVersion(vec)[i].ncas, e.titleId)
  {
    var d := DedupeByVersion(vec);
    var canonical := ids.updateOf(base);
    CommitTitleMembership(base, vec, ids, e);
    VariantEntriesMembership(d, canonical, |d|, e);
    VariantTitleIdsDistinct(canonical, i, i);
    assert e !in UpdateEntries(LatestCandidate(vec).ncas, canonical);
    if e in VariantEntries(d, canonical, |d|) {
      var j :| 0 <= j < |d| && HeldByVariant(d, canonical, j, e);
      HeldByVariantTitle(d, canonical, j, e);
      VariantTitleIdsDistinct(canonical, i, j);
      assert j == i;
    }
    if e in UpdateEntries(d[i].ncas, e.titleId) {
      assert HeldByVariant(d, canonical, i, e);
    }
  }

  /** The least element of a non-empty set of title IDs. */
  lemma LeastOf(keys: set<TitleId>) returns (k: TitleId)
    requires keys != {}
    ensures k in keys && forall b :: b in keys ==> k <= b
    decreases |keys|
  {
    var x :| x in keys;
    var rest := keys - {x};
    if rest == {} {
      assert keys == {x};
      k := x;
    } else {
      var m := LeastOf(rest);
      k := if x < m then x else m;
      forall b | b in keys
        ensures k <= b
      {
        if b != x {
          assert b in rest;
        }
      }
    }
  }

  lemma HasLeastKey(keys: set<TitleId>)
    requires keys != {}
    ensures exists k :: k in keys && forall b :: b in keys ==> k <= b
  {
    var k := LeastOf(keys);
  }

  /** The next base title of an ordered walk of the update map. */
  function LeastKey(keys: set<TitleId>): (k: TitleId)
    requires keys != {}
    ensures k in keys && forall b :: b in keys ==> k <= b
  {
    HasLeastKey(keys);
    var k :| k in keys && forall b :: b in keys ==> k <= b;
    k
  }

  /** The registrations of every title of a map, walked in ascending key
      order. */
  function UnionByKey(regs: map<TitleId, multiset<Entry>>): multiset<Entry>
    decreases |regs.Keys|
  {
    if regs.Keys == {} then multiset{}
    else
      var base := LeastKey(regs.Keys);
      regs[base] + UnionByKey(regs - {base})
  }

  lemma {:induction false} UnionByKeyMembership(regs: map<TitleId, multiset<Entry>>, e: Entry)
    ensures e in UnionByKey(regs) <==> exists b :: b in regs && e in regs[b]
    decreases |regs.Keys|
  {
    if regs.Keys != {} {
      var base := LeastKey(regs.Keys);
      var rest := regs - {base};
      UnionByKeyMembership(rest, e);
      if exists b :: b in rest && e in rest[b] {
        var b :| b in rest && e in rest[b];
        assert b in regs && e in regs[b];
      }
      if exists b :: b in regs && e in regs[b] {
        var b :| b in regs && e in regs[b];
        if b != base {
          assert b in rest && e in rest[b];
        }
      }
    }
  }

  /** What each base title of the update map registers. */
  function TitleRegistrations(byTitle: map<TitleId, seq<ParsedUpdate>>, ids: TitleIds): (r: map<TitleId, multiset<Entry>>)
    ensures r.Keys == byTitle.Keys
    ensures forall b :: b in r ==> r[b] == CommitTitle(b, byTitle[b], ids)
  {
    map b | b in byTitle :: CommitTitle(b, byTitle[b], ids)
  }

  /** The update registrations, title by title in ascending base-title order. */
  function CommitUpdates(byTitle: map<TitleId, seq<ParsedUpdate>>, ids: TitleIds): (r: multiset<Entry>)
  {
    UnionByKey(TitleRegistrations(byTitle, ids))
  }

  /** Base title `b` of the map registers `e`. */
  predicate TitleRegisters(byTitle: map<TitleId, seq<ParsedUpdate>>, ids: TitleIds, b: TitleId, e: Entry) {
    b in byTitle && e in CommitTitle(b, byTitle[b], ids)
  }

  /** Every title's registrations, and nothing else, reach the provider;
      all of them are updates. */
  lemma CommitUpdatesMembership(byTitle: map<TitleId, seq<ParsedUpdate>>, ids: TitleIds, e: Entry)
    ensures e in CommitUpdates(byTitle, ids) <==> exists b :: TitleRegisters(byTitle, ids, b, e)
    ensures e in CommitUpdates(byTitle, ids) ==> e.kind == Update
  {
    var regs := TitleRegistrations(byTitle, ids);
    UnionByKeyMembership(regs, e);
    if exists b :: b in regs && e in regs[b] {
      var b :| b in regs && e in regs[b];
      assert TitleRegisters(byTitle, ids, b, e);
    }
    if exists b :: TitleRegisters(byTitle, ids, b, e) {
      var b :| TitleRegisters(byTitle, ids, b, e);
      assert b in regs && e in regs[b];
    }
  }

  /** The DLC registrations, in discovery order: one per non-null record. */
  function DlcEntries(allDlc: seq<ParsedDlcRecord>): (r: seq<Entry>)
    ensures forall e :: e in r ==> e.kind == AOC && e.rtype == Data && ParsedDlcRecord(e.titleId, Handle(e.fileId)) in allDlc
    ensures forall d :: d in allDlc && d.file.Handle? ==> Entry(AOC, Data, d.titleId, d.file.id) in r
    decreases |allDlc|
  {
    if |allDlc| == 0 then []
    else
      var init := allDlc[..|allDlc| - 1];
      var last := allDlc[|allDlc| - 1];
      assert allDlc == init + [last];
      DlcEntries(init) + (if last.file.Handle? then [Entry(AOC, Data, last.titleId, last.file.id)] else [])
  }

  /** DLC is not de-duplicated: a record found `k` times is registered `k`
      times. */
  lemma {:induction false} DlcEntriesKeepDuplicates(allDlc: seq<ParsedDlcRecord>, t: TitleId, id: nat)
    ensures multiset(DlcEntries(allDlc))[Entry(AOC, Data, t, id)] == multiset(allDlc)[ParsedDlcRecord(t, Handle(id))]
    decreases |allDlc|
  {
    if |allDlc| > 0 {
      var init := allDlc[..|allDlc| - 1];
      assert allDlc == init + [allDlc[|allDlc| - 1]];
      DlcEntriesKeepDuplicates(init, t, id);
    }
  }

  /** Everything one commit hands to the content provider. */
  function Commit(idx: Index, ids: TitleIds): (r: multiset<Entry>)
    ensures forall e: Entry :: e.kind == AOC ==> r[e] == multiset(DlcEntries(idx.allDlc))[e]
    ensures forall e: Entry :: e.kind != AOC ==> r[e] == CommitUpdates(idx.updatesByTitle, ids)[e]
    ensures forall e :: e in r ==> e.kind != OtherTitleType
  {
    var updates := CommitUpdates(idx.updatesByTitle, ids);
    forall e | e in updates
      ensures e.kind == Update
    {
      CommitUpdatesMembership(idx.updatesByTitle, ids, e);
    }
    updates + multiset(DlcEntries(idx.allDlc))
  }

  /** A rescan: the provider and the collected index start empty, update
      folders are indexed before DLC folders, then everything is committed. */
  function Rebuild(paths: ContentPaths, ids: TitleIds): (r: multiset<Entry>)
    ensures forall e :: e in r ==> e.kind != OtherTitleType
  {
    var afterUpdates := IndexDirs(EmptyIndex, paths.updateDirs, true, ids);
    Commit(IndexDirs(afterUpdates, paths.dlcDirs, false, ids), ids)
  }

  /** The update registrations of a rescan depend only on the update
      folders: DLC folders add no updates. */
  lemma RebuildUpdatesFromUpdateDirsOnly(paths: ContentPaths, ids: TitleIds, e: Entry)
    requires e.kind == Update
    ensures Rebuild(paths, ids)[e] == Rebuild(ContentPaths(paths.updateDirs, []), ids)[e]
  {
    var afterUpdates := IndexDirs(EmptyIndex, paths.updateDirs, true, ids);
    DlcDirsAddNoUpdates(afterUpdates, paths.dlcDirs, ids);
  }
}
