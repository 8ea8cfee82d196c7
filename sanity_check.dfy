// The sanity check run before a new snapshot is committed
// (scripts/map_update.py:293-308): every milieu directory must hold at least
// `_MinMilieuFiles` plain files, and no file anywhere under the snapshot's base
// directory may be empty. The file system is a directory tree given as a value.
module SanityCheck {
  import opened Wrappers

  /** A directory entry: a file with its size in bytes, or a directory with its entries in listing order. */
  datatype Entry = File(name: string, size: nat) | Directory(name: string, entries: seq<Entry>)

  /** A file as `os.walk` reports it: the directory path joined with the file's name. */
  datatype WalkedFile = WalkedFile(path: string, size: nat)

  datatype GateError =
    | MissingMilieu(milieu: string)            // `os.listdir` of the milieu directory raises
    | TooFewFiles(milieu: string, count: nat)  // fewer plain files than the minimum
    | EmptyFile(path: string)                  // a file of size zero

  const MilieuDir := "milieu"
  const MilieuList: seq<string> := ["IW", "M0", "M990", "M1105", "M1120", "M1201", "M1248", "M1900"]
  /** A universe file plus the sector and metadata files of at least one sector. */
  const MinMilieuFiles := 3

  /** `os.path.join` on a POSIX system, for a relative second part. */
  function Join(dir: string, name: string): string
  {
    dir + "/" + name
  }

  /** The first entry called `name`, if any. */
  function Lookup(entries: seq<Entry>, name: string): (r: Option<Entry>)
    ensures r.Some? ==> r.value in entries && r.value.name == name
    ensures r.None? ==> forall e :: e in entries ==> e.name != name
  {
    if |entries| == 0 then None
    else if entries[0].name == name then Some(entries[0])
    else Lookup(entries[1..], name)
  }

  /** The entries of the directory at `base/milieu/<milieu>`, or nothing when there is no such directory. */
  function MilieuListing(root: seq<Entry>, milieu: string): (r: Option<seq<Entry>>)
    ensures r.Some? ==>
      exists d :: d in root && d.Directory? && d.name == MilieuDir && Directory(milieu, r.value) in d.entries
  {
    match Lookup(root, MilieuDir)
    case Some(Directory(_, milieus)) =>
      (match Lookup(milieus, milieu)
       case Some(Directory(_, entries)) => Some(entries)
       case _ => None)
    case _ => None
  }

  /** `[entry for entry in os.listdir(path) if os.path.isfile(...)]`: the plain files of a directory. */
  function PlainFiles(entries: seq<Entry>): (files: seq<Entry>)
    ensures forall f :: f in files <==> f in entries && f.File?
    ensures |files| <= |entries|
  {
    if |entries| == 0 then []
    else (if entries[0].File? then [entries[0]] else []) + PlainFiles(entries[1..])
  }

  /**
   * `os.walk(dir)` top-down, flattened to its files: the files of `dir` in
   * listing order, then the walk of each subdirectory in listing order.
   */
  function Walk(entries: seq<Entry>, dir: string): seq<WalkedFile>
    decreases entries, 1
  {
    FilesHere(entries, dir) + WalkSubdirectories(entries, dir)
  }

  function FilesHere(entries: seq<Entry>, dir: string): (files: seq<WalkedFile>)
    ensures forall e :: e in entries && e.File? ==> WalkedFile(Join(dir, e.name), e.size) in files
  {
    if |entries| == 0 then []
    else
      (if entries[0].File? then [WalkedFile(Join(dir, entries[0].name), entries[0].size)] else [])
      + FilesHere(entries[1..], dir)
  }

  function WalkSubdirectories(entries: seq<Entry>, dir: string): seq<WalkedFile>
    decreases entries, 0
  {
    if |entries| == 0 then []
    else
      (match entries[0]
       case Directory(name, sub) => Walk(sub, Join(dir, name))
       case File(_, _) => [])
      + WalkSubdirectories(entries[1..], dir)
  }

  /** The sanity check passes. */
  predicate GatePasses(root: seq<Entry>, basePath: string)
  {
    (forall m :: m in MilieuList ==>
      MilieuListing(root, m).Some? && |PlainFiles(MilieuListing(root, m).value)| >= MinMilieuFiles)
    && forall w :: w in Walk(root, basePath) ==> w.size > 0
  }

  /**
   * The check, in the source's order: the milieu directories in list order,
   * then every file the walk meets; the first failure is reported.
   */
  method CheckSnapshot(root: seq<Entry>, basePath: string) returns (r: Outcome<GateError>)
    ensures r.Pass? <==> GatePasses(root, basePath)
    ensures r.Fail? && r.error.MissingMilieu? ==>
      r.error.milieu in MilieuList && MilieuListing(root, r.error.milieu).None?
    ensures r.Fail? && r.error.TooFewFiles? ==>
      r.error.milieu in MilieuList && MilieuListing(root, r.error.milieu).Some? &&
      r.error.count == |PlainFiles(MilieuListing(root, r.error.milieu).value)| < MinMilieuFiles
    ensures r.Fail? && r.error.EmptyFile? ==> WalkedFile(r.error.path, 0) in Walk(root, basePath)
  {
    for i := 0 to |MilieuList|
      invariant forall j :: 0 <= j < i ==>
        MilieuListing(root, MilieuList[j]).Some? && |PlainFiles(MilieuListing(root, MilieuList[j]).value)| >= MinMilieuFiles
    {
      var milieu := MilieuList[i];
      var listing := MilieuListing(root, milieu);
      if listing.None? {
        return Fail(MissingMilieu(milieu));
      }
      var files := PlainFiles(listing.value);
      if |files| < MinMilieuFiles {
        return Fail(TooFewFiles(milieu, |files|));
      }
    }
    var walked := Walk(root, basePath);
    for i := 0 to |walked|
      invariant forall j :: 0 <= j < i ==> walked[j].size > 0
    {
      if walked[i].size <= 0 {
        return Fail(EmptyFile(walked[i].path));
      }
    }
    return Pass;
  }

  /** Every file of a subdirectory is met by the walk of its parent. */
  lemma {:induction false} WalkCoversSubdirectory(entries: seq<Entry>, dir: string, name: string, sub: seq<Entry>)
    requires Directory(name, sub) in entries
    ensures forall w :: w in Walk(sub, Join(dir, name)) ==> w in Walk(entries, dir)
  {
    WalkSubdirectoriesCover(entries, dir, name, sub);
  }

  lemma {:induction false} WalkSubdirectoriesCover(entries: seq<Entry>, dir: string, name: string, sub: seq<Entry>)
    requires Directory(name, sub) in entries
    ensures forall w :: w in Walk(sub, Join(dir, name)) ==> w in WalkSubdirectories(entries, dir)
    decreases |entries|
  {
    if entries[0] != Directory(name, sub) {
      assert Directory(name, sub) in entries[1..];
      WalkSubdirectoriesCover(entries[1..], dir, name, sub);
    }
  }

  /**
   * What the passing check guarantees: every milieu directory exists and holds
   * at least three plain files, none of them empty.
   */
  lemma GateMeaning(root: seq<Entry>, basePath: string, m: string)
    requires GatePasses(root, basePath) && m in MilieuList
    ensures MilieuListing(root, m).Some?
    ensures var files := PlainFiles(MilieuListing(root, m).value);
      |files| >= MinMilieuFiles && forall f :: f in files ==> f.size > 0
  {
    var entries := MilieuListing(root, m).value;
    var d :| d in root && d.Directory? && d.name == MilieuDir && Directory(m, entries) in d.entries;
    var milieuPath := Join(Join(basePath, MilieuDir), m);
    WalkCoversSubdirectory(root, basePath, MilieuDir, d.entries);
    WalkCoversSubdirectory(d.entries, Join(basePath, MilieuDir), m, entries);
    forall f | f in PlainFiles(entries)
      ensures f.size > 0
    {
      assert WalkedFile(Join(milieuPath, f.name), f.size) in Walk(entries, milieuPath);
    }
  }
}
