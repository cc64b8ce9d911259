/**
 * `run_import`: builds the reference folder and its knowledge base from a
 * raw dataset whose sub-folders are named after the disease templates.
 * Every image of a recognised folder is queued for copying under the name
 * `{key}_{n}.{ext}` and that name is mapped to the folder's template.
 *
 * The dataset root is a listing of (name, is-a-directory, file listing)
 * triples in `os.listdir` order; the copying and the writing of
 * `database.json` are the method's result rather than effects.
 */
module Importer {
  import opened Text
  import opened Records
  import Processor

  const SourceRoot: string := "C:\\Users\\Wajahat Traders\\Desktop\\Raw_Dataset"

  const DestFolder: string := "assets/images"

  /** The separator `os.path.join` inserts on Windows, where the dataset lives. */
  const PathSeparator: char := '\\'

  /** What the report says for each recognised dataset folder. */
  const Templates: map<string, Record> := map[
    "apple_scab" := Record(
      "Apple Scab", "96.4%", "Infected",
      "Velvety, olive-green spots. Severe cases cause leaf drop.",
      "Apply Captan or Sulfur fungicides. Rake up fallen leaves."),
    "apple_black_rot" := Record(
      "Black Rot (Frogeye Leaf Spot)", "98.1%", "Infected",
      "Purple spots with light brown centers (frog-eye pattern).",
      "Remove mummified fruit. Apply fungicide at silver tip stage."),
    "apple_healthy" := Record(
      "Healthy Apple Leaf", "99.8%", "Healthy",
      "Leaf is vibrant green with no lesions or discoloration.",
      "Maintain standard irrigation and fertilization."),
    "corn_common_rust" := Record(
      "Common Rust", "97.5%", "Infected",
      "Oval, cinnamon-brown pustules on leaf surfaces.",
      "Fungicide application usually not needed unless severe."),
    "corn_leaf_blight" := Record(
      "Northern Corn Leaf Blight", "96.9%", "Infected",
      "Long, cigar-shaped greyish-green lesions.",
      "Use resistant hybrids. Rotate crops to reduce residue."),
    "corn_healthy" := Record(
      "Healthy Corn Leaf", "99.5%", "Healthy",
      "No signs of rust pustules or necrotic lesions.",
      "Continue monitoring for pests."),
    "potato_early_blight" := Record(
      "Early Blight", "98.7%", "Infected",
      "Dark brown spots with concentric rings (target board effect).",
      "Apply Mancozeb or Chlorothalonil when spots appear."),
    "potato_late_blight" := Record(
      "Late Blight", "99.2%", "Critical",
      "Large, dark, water-soaked spots with white fuzz.",
      "Destroy infected plants. Preventative spray required."),
    "potato_healthy" := Record(
      "Healthy Potato Leaf", "99.6%", "Healthy",
      "Foliage is intact, green, and shows vigorous growth.",
      "Ensure proper hilling and watering.")
  ]

  /** One name in the dataset root, with the names listed inside it. */
  datatype SourceFolder = SourceFolder(name: string, isDir: bool, files: seq<string>)

  /** A queued copy from the dataset into the reference folder. */
  datatype CopyTask = CopyTask(src: string, dst: string)

  /** A knowledge-base entry as it is inserted: new file name and its record. */
  type DbEntry = (string, Record)

  datatype ImportResult =
      /** The dataset root does not exist: nothing is queued and nothing is written. */
    | RootMissing
      /** The copy queue, in order, and the dictionary dumped to `database.json`. */
    | Imported(tasks: seq<CopyTask>, db: KnowledgeBase)

  function Join(dir: string, name: string): (r: string)
    ensures dir + [PathSeparator] <= r
  {
    dir + [PathSeparator] + name
  }

  /** A name without separator is read back as the last component of the joined path. */
  lemma JoinedNameIsLast(dir: string, name: string)
    requires PathSeparator !in name
    ensures LastField(Join(dir, name), PathSeparator) == name
  {
    LastFieldOfJoin(dir, PathSeparator, name);
  }

  /** The image filter of the import: no dot is required before the extension. */
  predicate KeepsFile(name: string): (r: bool)
    ensures r ==> |name| >= 3
  {
    var lower := Lower(name);
    EndsWith(lower, "jpg") || EndsWith(lower, "jpeg") || EndsWith(lower, "png")
  }

  /** The list comprehension over a folder's listing. */
  function KeptFiles(files: seq<string>): (kept: seq<string>)
    ensures |kept| <= |files|
    ensures forall f :: f in kept <==> f in files && KeepsFile(f)
  {
    if files == [] then []
    else
      var n := |files| - 1;
      KeptFiles(files[..n]) + (if KeepsFile(files[n]) then [files[n]] else [])
  }

  /** Filtering a single name keeps it exactly when it passes the filter. */
  lemma KeptFilesSingleton(f: string)
    ensures KeptFiles([f]) == if KeepsFile(f) then [f] else []
  {
    assert [f][..0] == [];
  }

  lemma KeptFilesSnoc(files: seq<string>, f: string)
    ensures KeptFiles(files + [f]) == KeptFiles(files) + if KeepsFile(f) then [f] else []
  {
    assert (files + [f])[..|files|] == files;
  }

  /**
   * Filtering distributes over concatenation: the kept files come in
   * listing order, each as often as it is listed.
   */
  lemma {:induction false} KeptFilesAppend(a: seq<string>, b: seq<string>)
    ensures KeptFiles(a + b) == KeptFiles(a) + KeptFiles(b)
  {
    if b == [] {
      assert a + b == a;
    } else {
      var n := |b| - 1;
      var last := if KeepsFile(b[n]) then [b[n]] else [];
      assert a + b == (a + b[..n]) + [b[n]];
      assert b == b[..n] + [b[n]];
      KeptFilesSnoc(a + b[..n], b[n]);
      KeptFilesSnoc(b[..n], b[n]);
      KeptFilesAppend(a, b[..n]);
      AppendAssoc(KeptFiles(a), KeptFiles(b[..n]), last);
    }
  }

  /** Every name the matcher's filter accepts, the import filter keeps too. */
  lemma ImageNamesAreKept(name: string)
    requires Processor.IsImageName(name)
    ensures KeepsFile(name)
  {
    var lower := Lower(name);
    if EndsWith(lower, ".png") {
      EndsWithTail(lower, ".png");
      assert ".png"[1..] == "png";
    } else if EndsWith(lower, ".jpg") {
      EndsWithTail(lower, ".jpg");
      assert ".jpg"[1..] == "jpg";
    } else {
      EndsWithTail(lower, ".jpeg");
      assert ".jpeg"[1..] == "jpeg";
    }
  }

  /** `filename.split('.')[-1]` */
  function Extension(name: string): (r: string)
    ensures '.' !in r
  {
    LastField(name, '.')
  }

  /** `f"{key}_{index}.{extension}"` */
  function NewName(key: string, index: nat, extension: string): (r: string)
    ensures key + "_" <= r
    ensures |r| == |key| + |Decimal(index)| + |extension| + 2
  {
    key + "_" + Decimal(index) + "." + extension
  }

  /** A directory whose lower-cased name is a template key. */
  predicate Recognised(folder: SourceFolder): (r: bool)
    ensures r ==> folder.isDir && |folder.name| >= 10
  {
    folder.isDir && Lower(folder.name) in Templates
  }

  /** A folder is recognised or not whatever the case of its name. */
  lemma RecognisedIgnoresCase(folder: SourceFolder)
    ensures Recognised(folder.(name := Lower(folder.name))) <==> Recognised(folder)
  {
    LowerIdempotent(folder.name);
  }

  /** The name given to the `i`-th kept file (0-based) of a recognised folder. */
  function NameFor(folder: SourceFolder, i: nat): (r: string)
    requires i < |KeptFiles(folder.files)|
    ensures Lower(folder.name) + "_" <= r
    ensures |r| == |folder.name| + |Decimal(i + 1)| + |Extension(KeptFiles(folder.files)[i])| + 2
  {
    NewName(Lower(folder.name), i + 1, Extension(KeptFiles(folder.files)[i]))
  }

  /** The copy queued for the `i`-th kept file: from inside its folder into `assets/images`. */
  function TaskFor(folder: SourceFolder, i: nat): (t: CopyTask)
    requires i < |KeptFiles(folder.files)|
    ensures Join(SourceRoot, folder.name) + [PathSeparator] <= t.src
    ensures DestFolder + [PathSeparator] <= t.dst
  {
    CopyTask(Join(Join(SourceRoot, folder.name), KeptFiles(folder.files)[i]), Join(DestFolder, NameFor(folder, i)))
  }

  /** The copies one folder queues: none unless it is recognised. */
  function FolderTasks(folder: SourceFolder): (r: seq<CopyTask>)
    ensures |r| == if Recognised(folder) then |KeptFiles(folder.files)| else 0
    ensures forall i :: 0 <= i < |r| ==> r[i] == TaskFor(folder, i)
  {
    if !Recognised(folder) then []
    else seq(|KeptFiles(folder.files)|, i requires 0 <= i < |KeptFiles(folder.files)| => TaskFor(folder, i))
  }

  /** The knowledge-base insertions one folder makes: none unless it is recognised. */
  function FolderEntries(folder: SourceFolder): (r: seq<DbEntry>)
    ensures |r| == if Recognised(folder) then |KeptFiles(folder.files)| else 0
    ensures forall i :: 0 <= i < |r| ==> Recognised(folder) && r[i] == EntryFor(folder, i)
  {
    if !Recognised(folder) then []
    else seq(|KeptFiles(folder.files)|, i requires 0 <= i < |KeptFiles(folder.files)| => EntryFor(folder, i))
  }

  function ImportTasks(listing: seq<SourceFolder>): (r: seq<CopyTask>)
    ensures |r| == ImageCount(listing)
  {
    if listing == [] then []
    else ImportTasks(listing[..|listing| - 1]) + FolderTasks(listing[|listing| - 1])
  }

  function ImportEntries(listing: seq<SourceFolder>): (r: seq<DbEntry>)
    ensures |r| == ImageCount(listing)
  {
    if listing == [] then []
    else ImportEntries(listing[..|listing| - 1]) + FolderEntries(listing[|listing| - 1])
  }

  /** A dictionary filled by assigning the entries in order; a later key overwrites. */
  function MapOf(entries: seq<DbEntry>): (r: KnowledgeBase)
    ensures |r| <= |entries|
    ensures entries != [] ==> var last := entries[|entries| - 1]; last.0 in r && r[last.0] == last.1
  {
    if entries == [] then map[]
    else
      var last := entries[|entries| - 1];
      MapOf(entries[..|entries| - 1])[last.0 := last.1]
  }

  lemma PrefixSnoc<T>(s: seq<T>, i: nat)
    requires i < |s|
    ensures s[..i + 1] == s[..i] + [s[i]]
  {
  }

  lemma AppendAssoc<T>(a: seq<T>, b: seq<T>, c: seq<T>)
    ensures a + (b + c) == (a + b) + c
  {
  }

  lemma MapOfSnoc(entries: seq<DbEntry>, e: DbEntry)
    ensures MapOf(entries + [e]) == MapOf(entries)[e.0 := e.1]
  {
    assert (entries + [e])[..|entries|] == entries;
  }

  /** Appending the next element of `whole` extends the prefix taken so far. */
  lemma AppendNext<T>(base: seq<T>, whole: seq<T>, i: nat)
    requires i < |whole|
    ensures base + whole[..i] + [whole[i]] == base + whole[..i + 1]
  {
    PrefixSnoc(whole, i);
    AppendAssoc(base, whole[..i], [whole[i]]);
  }

  /** Assigning the next entry of `whole` fills the dictionary of the longer prefix. */
  lemma AssignNext(base: seq<DbEntry>, whole: seq<DbEntry>, i: nat)
    requires i < |whole|
    ensures MapOf(base + whole[..i])[whole[i].0 := whole[i].1] == MapOf(base + whole[..i + 1])
  {
    MapOfSnoc(base + whole[..i], whole[i]);
    AppendNext(base, whole, i);
  }

  function ImportDb(listing: seq<SourceFolder>): (r: KnowledgeBase)
    ensures |r| <= ImageCount(listing)
  {
    MapOf(ImportEntries(listing))
  }

  /** The whole of `run_import`, as the loops below compute it. */
  function Import(rootExists: bool, listing: seq<SourceFolder>): (r: ImportResult)
    ensures r.RootMissing? <==> !rootExists
    ensures r.Imported? ==> |r.tasks| == ImageCount(listing) && |r.db| <= |r.tasks|
  {
    if !rootExists then RootMissing else Imported(ImportTasks(listing), ImportDb(listing))
  }

  /** The nested loops of `run_import`. */
  method RunImport(rootExists: bool, listing: seq<SourceFolder>) returns (result: ImportResult)
    ensures result == Import(rootExists, listing)
    ensures result.RootMissing? <==> !rootExists
  {
    var db: KnowledgeBase := map[];
    var tasks: seq<CopyTask> := [];
    if !rootExists {
      return RootMissing;
    }
    for fi := 0 to |listing|
      invariant tasks == ImportTasks(listing[..fi])
      invariant db == MapOf(ImportEntries(listing[..fi]))
    {
      var folder := listing[fi];
      assert listing[..fi + 1][..fi] == listing[..fi];
      tasks, db := ImportFolder(folder, tasks, db, ImportEntries(listing[..fi]));
    }
    assert listing[..|listing|] == listing;
    return Imported(tasks, db);
  }

  /** One iteration of the outer loop: the folder's copies and insertions, if it is recognised. */
  method ImportFolder(folder: SourceFolder, tasks: seq<CopyTask>, db: KnowledgeBase, ghost entries: seq<DbEntry>)
    returns (tasks': seq<CopyTask>, db': KnowledgeBase)
    requires db == MapOf(entries)
    ensures tasks' == tasks + FolderTasks(folder)
    ensures db' == MapOf(entries + FolderEntries(folder))
  {
    if folder.isDir {
      var key := Lower(folder.name);
      if key in Templates {
        tasks', db' := CopyFolder(folder, key, Templates[key], tasks, db, entries);
        return;
      }
    }
    tasks', db' := tasks, db;
    assert entries + [] == entries;
  }

  /** The inner loop over the kept files of a recognised folder. */
  method CopyFolder(folder: SourceFolder, key: string, template: Record,
                    tasks: seq<CopyTask>, db: KnowledgeBase, ghost entries: seq<DbEntry>)
    returns (tasks': seq<CopyTask>, db': KnowledgeBase)
    requires Recognised(folder) && key == Lower(folder.name) && template == Templates[key]
    requires db == MapOf(entries)
    ensures tasks' == tasks + FolderTasks(folder)
    ensures db' == MapOf(entries + FolderEntries(folder))
  {
    var files := KeptFiles(folder.files);
    ghost var queued := FolderTasks(folder);
    ghost var inserted := FolderEntries(folder);
    tasks', db' := tasks, db;
    assert entries + inserted[..0] == entries;
    for i := 0 to |files|
      invariant tasks' == tasks + queued[..i]
      invariant db' == MapOf(entries + inserted[..i])
    {
      var extension := Extension(files[i]);
      var newName := NewName(key, i + 1, extension);
      var src := Join(Join(SourceRoot, folder.name), files[i]);
      var dst := Join(DestFolder, newName);
      FolderItemAt(folder, i);
      AppendNext(tasks, queued, i);
      AssignNext(entries, inserted, i);
      tasks' := tasks' + [CopyTask(src, dst)];
      db' := db'[newName := template];
    }
    assert queued[..|files|] == queued;
    assert inserted[..|files|] == inserted;
  }

  /** The `i`-th copy and insertion of a recognised folder. */
  lemma FolderItemAt(folder: SourceFolder, i: nat)
    requires Recognised(folder) && i < |KeptFiles(folder.files)|
    ensures FolderTasks(folder)[i] == TaskFor(folder, i)
    ensures FolderEntries(folder)[i] == EntryFor(folder, i)
  {
  }

  // ---------------------------------------------------------------------
  // Renaming

  /** The number in a new name can be read back from it. */
  lemma NewNameIndexInjective(key: string, m: nat, n: nat, e1: string, e2: string)
    requires NewName(key, m, e1) == NewName(key, n, e2)
    ensures m == n
  {
    var k := |key| + 1;
    assert NewName(key, m, e1)[k..] == Decimal(m) + "." + e1;
    assert NewName(key, n, e2)[k..] == Decimal(n) + "." + e2;
    DecimalDigits(m);
    DecimalDigits(n);
    DigitsHaveNoDot(Decimal(m));
    DigitsHaveNoDot(Decimal(n));
    FirstFieldOfJoin(Decimal(m), '.', e1);
    FirstFieldOfJoin(Decimal(n), '.', e2);
    DecimalInjective(m, n);
  }

  /** The `i`-th kept file (0-based) is numbered `i + 1`: the digits after `key_` read back as it. */
  lemma NameForNumber(folder: SourceFolder, i: nat)
    requires i < |KeptFiles(folder.files)|
    ensures AllDigits(FirstField(NameFor(folder, i)[|folder.name| + 1..], '.'))
    ensures ParseDecimal(FirstField(NameFor(folder, i)[|folder.name| + 1..], '.')) == i + 1
  {
    var key := Lower(folder.name);
    var ext := Extension(KeptFiles(folder.files)[i]);
    assert NameFor(folder, i)[|key| + 1..] == Decimal(i + 1) + "." + ext;
    DecimalDigits(i + 1);
    DigitsHaveNoDot(Decimal(i + 1));
    FirstFieldOfJoin(Decimal(i + 1), '.', ext);
    ParseDecimalRoundTrip(i + 1);
  }

  lemma DigitsHaveNoDot(s: string)
    requires AllDigits(s)
    ensures '.' !in s
  {
  }

  /** The kept files of one folder get pairwise different names. */
  lemma FolderNamesDistinct(folder: SourceFolder, i: nat, j: nat)
    requires i < |KeptFiles(folder.files)| && j < |KeptFiles(folder.files)|
    requires i != j
    ensures NameFor(folder, i) != NameFor(folder, j)
  {
    var kept := KeptFiles(folder.files);
    NewNamesDistinct(Lower(folder.name), i + 1, j + 1, Extension(kept[i]), Extension(kept[j]));
  }

  lemma NewNamesDistinct(key: string, m: nat, n: nat, e1: string, e2: string)
    requires m != n
    ensures NewName(key, m, e1) != NewName(key, n, e2)
  {
    if NewName(key, m, e1) == NewName(key, n, e2) {
      NewNameIndexInjective(key, m, n, e1, e2);
      assert false;
    }
  }

  /** A new name keeps the original file's extension, in its original case. */
  lemma NewNameKeepsExtension(folder: SourceFolder, i: nat)
    requires i < |KeptFiles(folder.files)|
    ensures Extension(NameFor(folder, i)) == Extension(KeptFiles(folder.files)[i])
    ensures Lower(folder.name) + "_" <= NameFor(folder, i)
  {
    NewNameShape(Lower(folder.name), i + 1, Extension(KeptFiles(folder.files)[i]));
  }

  lemma NewNameShape(key: string, n: nat, ext: string)
    requires '.' !in ext
    ensures Extension(NewName(key, n, ext)) == ext
    ensures key + "_" <= NewName(key, n, ext)
  {
    var name := NewName(key, n, ext);
    assert name == (key + "_" + Decimal(n)) + ['.'] + ext;
    LastFieldOfJoin(key + "_" + Decimal(n), '.', ext);
  }

  /**
   * A new name determines the key and the position it was made from: two
   * folders collide only when their names differ at most in case, and then
   * only at the same position.
   */
  lemma NameIdentifiesKeyAndIndex(f1: SourceFolder, i1: nat, f2: SourceFolder, i2: nat)
    requires Recognised(f1) && i1 < |KeptFiles(f1.files)|
    requires Recognised(f2) && i2 < |KeptFiles(f2.files)|
    ensures NameFor(f1, i1) == NameFor(f2, i2) ==> Lower(f1.name) == Lower(f2.name) && i1 == i2
  {
    if NameFor(f1, i1) == NameFor(f2, i2) {
      NewNameKeepsExtension(f1, i1);
      NewNameKeepsExtension(f2, i2);
      KeyOfName(Lower(f1.name), Lower(f2.name), NameFor(f1, i1));
      NewNameIndexInjective(Lower(f1.name), i1 + 1, i2 + 1,
                            Extension(KeptFiles(f1.files)[i1]), Extension(KeptFiles(f2.files)[i2]));
    }
  }

  /**
   * The import filter asks for no dot before the extension, the matcher's
   * filter does. A kept file without a dot keeps its whole name as its
   * extension (`leafjpg` is copied as `apple_scab_1.leafjpg`), and once that
   * name is five characters or longer the matcher never opens the copy.
   */
  lemma UndottedFileIsNeverMatched(key: string, n: nat, name: string)
    requires '.' !in name && |name| >= 5
    ensures Extension(name) == name
    ensures !Processor.IsImageName(NewName(key, n, Extension(name)))
  {
    LastFieldWithoutSep(name, '.');
    var prefix := key + "_" + Decimal(n) + ".";
    assert NewName(key, n, name) == prefix + name;
    LowerAppend(prefix, name);
    var lower := Lower(prefix + name);
    assert lower[|lower| - 4] == LowerChar(name[|name| - 4]) != '.';
    assert lower[|lower| - 5] == LowerChar(name[|name| - 5]) != '.';
    assert lower[|lower| - 4..][0] == lower[|lower| - 4];
    assert lower[|lower| - 5..][0] == lower[|lower| - 5];
  }

  // ---------------------------------------------------------------------
  // The copy queue

  /** File `i` (0-based among the kept ones) of folder `fi` is imported. */
  ghost predicate Produces(listing: seq<SourceFolder>, fi: int, i: int)
  {
    0 <= fi < |listing| && Recognised(listing[fi]) && 0 <= i < |KeptFiles(listing[fi].files)|
  }

  /** The number of images the recognised folders hold. */
  function ImageCount(listing: seq<SourceFolder>): nat
  {
    if listing == [] then 0
    else
      var last := listing[|listing| - 1];
      ImageCount(listing[..|listing| - 1]) + (if Recognised(last) then |KeptFiles(last.files)| else 0)
  }

  lemma {:induction false} ProducedTaskQueued(listing: seq<SourceFolder>, fi: int, i: int)
    requires Produces(listing, fi, i)
    ensures TaskFor(listing[fi], i) in ImportTasks(listing)
  {
    var n := |listing| - 1;
    assert ImportTasks(listing) == ImportTasks(listing[..n]) + FolderTasks(listing[n]);
    if fi < n {
      assert listing[..n][fi] == listing[fi];
      ProducedTaskQueued(listing[..n], fi, i);
    } else {
      assert FolderTasks(listing[n])[i] == TaskFor(listing[n], i);
    }
  }

  lemma MemberFolderTasks(folder: SourceFolder, t: CopyTask)
    requires t in FolderTasks(folder)
    ensures Recognised(folder)
    ensures exists i :: 0 <= i < |KeptFiles(folder.files)| && t == TaskFor(folder, i)
  {
    var i :| 0 <= i < |FolderTasks(folder)| && FolderTasks(folder)[i] == t;
    assert FolderTasks(folder)[i] == TaskFor(folder, i);
  }

  lemma {:induction false} QueuedTaskProduced(listing: seq<SourceFolder>, t: CopyTask)
    requires t in ImportTasks(listing)
    ensures exists fi, i :: Produces(listing, fi, i) && t == TaskFor(listing[fi], i)
  {
    var n := |listing| - 1;
    assert ImportTasks(listing) == ImportTasks(listing[..n]) + FolderTasks(listing[n]);
    if t in ImportTasks(listing[..n]) {
      QueuedTaskProduced(listing[..n], t);
      var fi, i :| Produces(listing[..n], fi, i) && t == TaskFor(listing[..n][fi], i);
      ProducesInLonger(listing, n, fi, i);
    } else {
      MemberFolderTasks(listing[n], t);
      var i :| 0 <= i < |KeptFiles(listing[n].files)| && t == TaskFor(listing[n], i);
      assert Produces(listing, n, i);
    }
  }

  /**
   * The queue holds exactly one copy per kept file of a recognised folder,
   * from the file's own path to its new name in the reference folder.
   */
  lemma ImportTasksSpec(listing: seq<SourceFolder>)
    ensures forall t :: t in ImportTasks(listing) <==>
              exists fi, i :: Produces(listing, fi, i) && t == TaskFor(listing[fi], i)
  {
    forall t
      ensures t in ImportTasks(listing) <==> exists fi, i :: Produces(listing, fi, i) && t == TaskFor(listing[fi], i)
    {
      if t in ImportTasks(listing) {
        QueuedTaskProduced(listing, t);
      }
      if exists fi, i :: Produces(listing, fi, i) && t == TaskFor(listing[fi], i) {
        var fi, i :| Produces(listing, fi, i) && t == TaskFor(listing[fi], i);
        ProducedTaskQueued(listing, fi, i);
      }
    }
  }

  // ---------------------------------------------------------------------
  // The knowledge base

  lemma {:induction false} MapOfKeys(entries: seq<DbEntry>)
    ensures forall n :: n in MapOf(entries) <==> exists e :: e in entries && e.0 == n
  {
    if entries != [] {
      var k := |entries| - 1;
      MapOfKeys(entries[..k]);
      assert entries == entries[..k] + [entries[k]];
    }
  }

  /** Entries that agree on the record of each name. */
  ghost predicate Consistent(entries: seq<DbEntry>)
  {
    forall e1, e2 :: e1 in entries && e2 in entries && e1.0 == e2.0 ==> e1.1 == e2.1
  }

  lemma {:induction false} MapOfConsistent(entries: seq<DbEntry>)
    requires Consistent(entries)
    ensures forall e :: e in entries ==> e.0 in MapOf(entries) && MapOf(entries)[e.0] == e.1
  {
    if entries != [] {
      var k := |entries| - 1;
      assert entries == entries[..k] + [entries[k]];
      MapOfConsistent(entries[..k]);
    }
  }

  /** No template key is a proper prefix of another. */
  lemma TemplateKeysPrefixFree(k1: string, k2: string)
    requires k1 in Templates && k2 in Templates && k1 <= k2
    ensures k1 == k2
  {
    assert k1 == k2[..|k1|];
    assert k1[5] == k2[5] && k1[7] == k2[7];
  }

  /** A name that starts with `key_` for a template key names its key. */
  lemma KeyOfName(k1: string, k2: string, name: string)
    requires k1 in Templates && k2 in Templates
    requires k1 + "_" <= name && k2 + "_" <= name
    ensures k1 == k2
  {
    if |k1| <= |k2| {
      assert k1 == name[..|k1|] == k2[..|k1|];
      TemplateKeysPrefixFree(k1, k2);
    } else {
      assert k2 == name[..|k2|] == k1[..|k2|];
      TemplateKeysPrefixFree(k2, k1);
    }
  }

  /** The insertion a kept file makes. */
  function EntryFor(folder: SourceFolder, i: nat): (e: DbEntry)
    requires Recognised(folder) && i < |KeptFiles(folder.files)|
    ensures e.0 == NameFor(folder, i) && e.1 in Templates.Values
  {
    (NameFor(folder, i), Templates[Lower(folder.name)])
  }

  lemma {:induction false} ProducedEntryInserted(listing: seq<SourceFolder>, fi: int, i: int)
    requires Produces(listing, fi, i)
    ensures EntryFor(listing[fi], i) in ImportEntries(listing)
  {
    var n := |listing| - 1;
    if fi < n {
      assert listing[..n][fi] == listing[fi];
      ProducedEntryInserted(listing[..n], fi, i);
    } else {
      assert FolderEntries(listing[n])[i] == EntryFor(listing[n], i);
    }
  }

  lemma MemberFolderEntries(folder: SourceFolder, e: DbEntry)
    requires e in FolderEntries(folder)
    ensures Recognised(folder)
    ensures exists i :: 0 <= i < |KeptFiles(folder.files)| && e == EntryFor(folder, i)
  {
    var i :| 0 <= i < |FolderEntries(folder)| && FolderEntries(folder)[i] == e;
    assert FolderEntries(folder)[i] == EntryFor(folder, i);
  }

  lemma {:induction false} InsertedEntryProduced(listing: seq<SourceFolder>, e: DbEntry)
    requires e in ImportEntries(listing)
    ensures exists fi, i :: Produces(listing, fi, i) && e == EntryFor(listing[fi], i)
  {
    var n := |listing| - 1;
    assert ImportEntries(listing) == ImportEntries(listing[..n]) + FolderEntries(listing[n]);
    if e in ImportEntries(listing[..n]) {
      InsertedEntryProduced(listing[..n], e);
      var fi, i :| Produces(listing[..n], fi, i) && e == EntryFor(listing[..n][fi], i);
      ProducesInLonger(listing, n, fi, i);
    } else {
      MemberFolderEntries(listing[n], e);
      var i :| 0 <= i < |KeptFiles(listing[n].files)| && e == EntryFor(listing[n], i);
      assert Produces(listing, n, i);
    }
  }

  lemma ProducesInLonger(listing: seq<SourceFolder>, n: nat, fi: int, i: int)
    requires n <= |listing| && Produces(listing[..n], fi, i)
    ensures Produces(listing, fi, i) && listing[..n][fi] == listing[fi]
  {
  }

  /**
   * The dictionary written to `database.json`: its keys are exactly the new
   * names, and each maps to the template of the folder it came from.
   */
  lemma ImportDbSpec(listing: seq<SourceFolder>)
    ensures forall name :: name in ImportDb(listing) <==>
              exists fi, i :: Produces(listing, fi, i) && name == NameFor(listing[fi], i)
    ensures forall fi, i :: Produces(listing, fi, i) ==>
              && NameFor(listing[fi], i) in ImportDb(listing)
              && ImportDb(listing)[NameFor(listing[fi], i)] == Templates[Lower(listing[fi].name)]
  {
    var entries := ImportEntries(listing);
    MapOfKeys(entries);
    forall e1, e2 | e1 in entries && e2 in entries && e1.0 == e2.0
      ensures e1.1 == e2.1
    {
      InsertedEntryProduced(listing, e1);
      InsertedEntryProduced(listing, e2);
      var f1, i1 :| Produces(listing, f1, i1) && e1 == EntryFor(listing[f1], i1);
      var f2, i2 :| Produces(listing, f2, i2) && e2 == EntryFor(listing[f2], i2);
      NewNameKeepsExtension(listing[f1], i1);
      NewNameKeepsExtension(listing[f2], i2);
      KeyOfName(Lower(listing[f1].name), Lower(listing[f2].name), e1.0);
    }
    MapOfConsistent(entries);
    forall name | name in ImportDb(listing)
      ensures exists fi, i :: Produces(listing, fi, i) && name == NameFor(listing[fi], i)
    {
      var e :| e in entries && e.0 == name;
      InsertedEntryProduced(listing, e);
      var fi, i :| Produces(listing, fi, i) && e == EntryFor(listing[fi], i);
    }
    forall fi, i | Produces(listing, fi, i)
      ensures NameFor(listing[fi], i) in ImportDb(listing)
      ensures ImportDb(listing)[NameFor(listing[fi], i)] == Templates[Lower(listing[fi].name)]
    {
      ProducedEntryInserted(listing, fi, i);
    }
  }

  /** Every record of the dictionary is one of the templates. */
  lemma ImportDbHoldsTemplates(listing: seq<SourceFolder>, name: string)
    requires name in ImportDb(listing)
    ensures ImportDb(listing)[name] in Templates.Values
  {
    ImportDbSpec(listing);
    var fi, i :| Produces(listing, fi, i) && name == NameFor(listing[fi], i);
  }
}
