/**
  The walk of a configuration's import graph: a directory scans its QML files, a
  file scans its own directory and every directory it imports, and lists of what
  was already visited keep cycles from being walked twice.
 */
module Scan {

  type Path = string

  /** What an import line resolves to, and whether it ends in .js. */
  datatype Import = Import(target: Path, js: bool)

  datatype Entry =
    | Qml(path: Path)
    | Json(path: Path, parses: bool)
    | Other

  /** A file system at rest: what exists, what directories list, where QML files live, what readable ones import. */
  datatype Graph = Graph(
    existing: set<Path>, dirs: set<Path>, files: set<Path>,
    entries: map<Path, seq<Entry>>, home: map<Path, Path>, imports: map<Path, seq<Import>>)
  {
    ghost predicate WellFormed() {
      && dirs !! files && dirs <= existing
      && dirs <= entries.Keys && files <= home.Keys && imports.Keys <= files
      && (forall f :: f in files ==> home[f] in dirs)
      && (forall d, i :: d in dirs && 0 <= i < |entries[d]| ==> EntryFits(d, entries[d][i]))
    }

    ghost predicate EntryFits(d: Path, e: Entry)
      requires files <= home.Keys
    {
      match e
      case Qml(f) => f in files && home[f] == d
      case Json(f, _) => f !in files && f !in dirs
      case Other => true
    }

    ghost predicate Offers(d: Path, p: Path) {
      d in entries && Json(p, true) in entries[d]
    }

    ghost predicate Scripts(f: Path, p: Path) {
      f in imports && Import(p, true) in imports[f]
    }

    ghost predicate IsJson(p: Path) {
      exists d, i :: d in entries && 0 <= i < |entries[d]| && entries[d][i] == Json(p, true)
    }

    /** The file is one the directory scans. */
    ghost predicate Lists(d: Path, f: Path) {
      d in entries && Qml(f) in entries[d]
    }

    /** Reading the file makes the scanner want the directory. */
    ghost predicate Wants(f: Path, d: Path) {
      f in imports && f in home && (d == home[f] || (d in dirs && Import(d, false) in imports[f]))
    }

    /** A chain of directories, each wanted by a file of the one before, the first by the root file. */
    ghost predicate Chain(root: Path, path: seq<Path>)
      decreases |path|
    {
      && path != []
      && (if |path| == 1 then Wants(root, path[0])
          else Chain(root, path[..|path| - 1]) && Leads(path[|path| - 2], path[|path| - 1]))
    }

    ghost predicate Leads(d: Path, e: Path) {
      exists f :: f in imports && Lists(d, f) && Wants(f, e)
    }
  }

  ghost predicate Reachable(g: Graph, root: Path, d: Path) {
    exists path: seq<Path> :: g.Chain(root, path) && path[|path| - 1] == d
  }

  lemma StartReachable(g: Graph, root: Path, d: Path)
    requires g.Wants(root, d)
    ensures Reachable(g, root, d)
  {
    assert g.Chain(root, [d]);
  }

  lemma StepReachable(g: Graph, root: Path, d: Path, f: Path, e: Path)
    requires Reachable(g, root, d) && g.Lists(d, f) && g.Wants(f, e)
    ensures Reachable(g, root, e)
  {
    var path :| g.Chain(root, path) && path[|path| - 1] == d;
    assert (path + [e])[..|path|] == path;
    assert g.Leads(d, e);
    assert g.Chain(root, path + [e]);
  }

  // --------------------------------------------------------------- the invariant

  /** Nothing is visited without a reason. */
  ghost predicate Sound(g: Graph, root: Path, dirs: seq<Path>, files: seq<Path>) {
    && (forall d :: d in dirs ==> d in g.dirs && Reachable(g, root, d))
    && (forall f :: f in files && f in g.files ==> Justified(g, root, dirs, f))
    && (forall p :: p in files && p !in g.files ==> Recorded(g, dirs, files, p))
  }

  /** A JSON file that parses, of a visited directory, or a directory that a visited file imports as a script. */
  ghost predicate Recorded(g: Graph, dirs: seq<Path>, files: seq<Path>, p: Path) {
    || (exists d :: d in dirs && g.Offers(d, p))
    || (p in g.dirs && exists f :: f in files && g.Scripts(f, p))
  }

  lemma StillRecorded(g: Graph, dirs: seq<Path>, files: seq<Path>, dirs': seq<Path>, files': seq<Path>)
    requires (forall d :: d in dirs ==> d in dirs') && (forall f :: f in files ==> f in files')
    ensures forall p :: Recorded(g, dirs, files, p) ==> Recorded(g, dirs', files', p)
  {}

  ghost predicate Justified(g: Graph, root: Path, dirs: seq<Path>, f: Path) {
    f == root || exists d :: d in dirs && g.Lists(d, f)
  }

  /** Everything visited has been followed up, except what is still being scanned. */
  ghost predicate FollowedUp(g: Graph, dirs: seq<Path>, files: seq<Path>, openDirs: set<Path>, openFiles: set<Path>) {
    && (forall d :: d in dirs && d !in openDirs ==> ListedIn(g, d, files))
    && (forall f :: f in files && f in g.files && f !in openFiles ==> WantedIn(g, f, dirs, files))
  }

  ghost predicate ListedIn(g: Graph, d: Path, files: seq<Path>) {
    d in g.entries && forall i :: 0 <= i < |g.entries[d]| ==> Taken(g.entries[d][i], files)
  }

  /** QML files are scanned, and JSON files that parse are recorded. */
  predicate Taken(e: Entry, files: seq<Path>) {
    match e
    case Qml(path) => path in files
    case Json(path, parses) => parses ==> path in files
    case Other => true
  }

  ghost predicate WantedIn(g: Graph, f: Path, dirs: seq<Path>, files: seq<Path>) {
    f in g.imports ==>
      && f in g.home && g.home[f] in dirs
      && forall i :: 0 <= i < |g.imports[f]| ==> Imported(g, g.imports[f][i], dirs, files)
  }

  /** A directory that is imported was visited, or merely recorded if its name ends in .js. */
  ghost predicate Imported(g: Graph, i: Import, dirs: seq<Path>, files: seq<Path>) {
    i.target in g.dirs ==> i.target in if i.js then files else dirs
  }

  /** Visited once: no directory twice, no QML file twice. */
  ghost predicate Once(g: Graph, dirs: seq<Path>, files: seq<Path>) {
    && (forall i, j :: 0 <= i < j < |dirs| ==> dirs[i] != dirs[j])
    && (forall i, j :: 0 <= i < j < |files| && files[i] in g.files ==> files[i] != files[j])
  }

  ghost predicate Invariant(g: Graph, root: Path, dirs: seq<Path>, files: seq<Path>,
                            openDirs: set<Path>, openFiles: set<Path>)
  {
    Sound(g, root, dirs, files) && FollowedUp(g, dirs, files, openDirs, openFiles) && Once(g, dirs, files)
  }

  lemma OpenDirectory(g: Graph, root: Path, dirs: seq<Path>, files: seq<Path>,
                      openDirs: set<Path>, openFiles: set<Path>, d: Path)
    requires Invariant(g, root, dirs, files, openDirs, openFiles)
    requires d !in dirs && d in g.dirs && Reachable(g, root, d)
    ensures Invariant(g, root, dirs + [d], files, openDirs + {d}, openFiles)
  {
    StillRecorded(g, dirs, files, dirs + [d], files);
    forall f | f in files && f in g.files ensures Justified(g, root, dirs + [d], f) {
      assert Justified(g, root, dirs, f);
    }
  }

  lemma CloseDirectory(g: Graph, root: Path, dirs: seq<Path>, files: seq<Path>,
                       openDirs: set<Path>, openFiles: set<Path>, d: Path)
    requires Invariant(g, root, dirs, files, openDirs + {d}, openFiles) && ListedIn(g, d, files)
    ensures Invariant(g, root, dirs, files, openDirs, openFiles)
  {}

  lemma OpenFile(g: Graph, root: Path, dirs: seq<Path>, files: seq<Path>,
                 openDirs: set<Path>, openFiles: set<Path>, f: Path)
    requires Invariant(g, root, dirs, files, openDirs, openFiles)
    requires f !in files && f in g.files && Justified(g, root, dirs, f)
    ensures Invariant(g, root, dirs, files + [f], openDirs, openFiles + {f})
  {
    StillRecorded(g, dirs, files, dirs, files + [f]);
  }

  lemma CloseFile(g: Graph, root: Path, dirs: seq<Path>, files: seq<Path>,
                  openDirs: set<Path>, openFiles: set<Path>, f: Path)
    requires Invariant(g, root, dirs, files, openDirs, openFiles + {f}) && WantedIn(g, f, dirs, files)
    ensures Invariant(g, root, dirs, files, openDirs, openFiles)
  {}

  /** Recording something that is not a QML file is neutral. */
  lemma RecordOther(g: Graph, root: Path, dirs: seq<Path>, files: seq<Path>,
                    openDirs: set<Path>, openFiles: set<Path>, p: Path)
    requires Invariant(g, root, dirs, files, openDirs, openFiles) && p !in g.files
    requires Recorded(g, dirs, files, p)
    ensures Invariant(g, root, dirs, files + [p], openDirs, openFiles)
  {
    StillRecorded(g, dirs, files, dirs, files + [p]);
  }

  // -------------------------------------------------------------------- closure

  lemma {:induction false} ReachableIsVisited(g: Graph, root: Path, dirs: seq<Path>, files: seq<Path>, path: seq<Path>)
    requires g.WellFormed() && FollowedUp(g, dirs, files, {}, {}) && g.Chain(root, path)
    requires root in files && root in g.files
    ensures path[|path| - 1] in dirs
    decreases |path|
  {
    var e := path[|path| - 1];
    if |path| == 1 {
      assert WantedIn(g, root, dirs, files);
      assert Imported(g, Import(e, false), dirs, files);
    } else {
      ReachableIsVisited(g, root, dirs, files, path[..|path| - 1]);
      var d := path[|path| - 2];
      assert d in dirs && ListedIn(g, d, files);
      var f :| f in g.imports && g.Lists(d, f) && g.Wants(f, e);
      assert f in files && WantedIn(g, f, dirs, files);
      assert Imported(g, Import(e, false), dirs, files);
    }
  }

  ghost function Elements(s: seq<Path>): set<Path> {
    set p | p in s
  }

  /** Visited lists only grow. */
  lemma GrownElements(a: seq<Path>, x: Path, b: seq<Path>)
    requires a + [x] <= b
    ensures Elements(a) + {x} <= Elements(b) && x in b
  {
    assert b[|a|] == x;
    assert forall i :: 0 <= i < |a| ==> b[i] == a[i];
  }

  lemma KeptElements(a: seq<Path>, b: seq<Path>)
    requires a <= b
    ensures Elements(a) <= Elements(b)
  {
    assert forall i :: 0 <= i < |a| ==> b[i] == a[i];
  }

  // ----------------------------------------------------------------- the scanner

  class QmlScanner {
    const g: Graph
    ghost const root: Path
    var scannedDirs: seq<Path>
    var scannedFiles: seq<Path>

    constructor (g: Graph, ghost root: Path)
      ensures this.g == g && this.root == root && scannedDirs == [] && scannedFiles == []
    {
      this.g, this.root := g, root;
      scannedDirs, scannedFiles := [], [];
    }

    ghost predicate Holds(openDirs: set<Path>, openFiles: set<Path>)
      reads this
    {
      Invariant(g, root, scannedDirs, scannedFiles, openDirs, openFiles)
    }

    method ScanDir(dir: Path, ghost openDirs: set<Path>, ghost openFiles: set<Path>)
      requires g.WellFormed() && Holds(openDirs, openFiles)
      requires dir in g.dirs && Reachable(g, root, dir)
      modifies this
      ensures Holds(openDirs, openFiles) && dir in scannedDirs
      ensures old(scannedDirs) <= scannedDirs && old(scannedFiles) <= scannedFiles
      decreases g.dirs - Elements(scannedDirs), g.files - Elements(scannedFiles), 0
    {
      hide Invariant, Reachable, Justified;
      if dir in scannedDirs {
        return;
      }
      OpenDirectory(g, root, scannedDirs, scannedFiles, openDirs, openFiles, dir);
      scannedDirs := scannedDirs + [dir];
      var i := 0;
      while i < |g.entries[dir]|
        invariant 0 <= i <= |g.entries[dir]|
        invariant Holds(openDirs + {dir}, openFiles)
        invariant old(scannedDirs) + [dir] <= scannedDirs && old(scannedFiles) <= scannedFiles
        invariant forall j :: 0 <= j < i ==> Taken(g.entries[dir][j], scannedFiles)
      {
        ghost var filesHere := scannedFiles;
        GrownElements(old(scannedDirs), dir, scannedDirs);
        assert g.EntryFits(dir, g.entries[dir][i]);
        match g.entries[dir][i] {
          case Qml(path) =>
            JustifiedByListing(g, root, scannedDirs, dir, path);
            var added := ScanQmlFile(path, openDirs + {dir}, openFiles);
          case Json(path, parses) =>
            if parses {
              assert Json(path, true) in g.entries[dir] && g.Offers(dir, path);
              RecordOther(g, root, scannedDirs, scannedFiles, openDirs + {dir}, openFiles, path);
              scannedFiles := scannedFiles + [path];
            }
          case Other =>
        }
        StillTaken(dir, i, filesHere);
        i := i + 1;
      }
      GrownElements(old(scannedDirs), dir, scannedDirs);
      CloseDirectory(g, root, scannedDirs, scannedFiles, openDirs, openFiles, dir);
    }

    method ScanQmlFile(path: Path, ghost openDirs: set<Path>, ghost openFiles: set<Path>) returns (added: bool)
      requires g.WellFormed() && Holds(openDirs, openFiles)
      requires path in g.files && Justified(g, root, scannedDirs, path)
      modifies this
      ensures Holds(openDirs, openFiles) && path in scannedFiles
      ensures old(scannedDirs) <= scannedDirs && old(scannedFiles) <= scannedFiles
      ensures added <==> path !in old(scannedFiles) && path in g.imports
      decreases g.dirs - Elements(scannedDirs), g.files - Elements(scannedFiles), 1
    {
      hide Invariant, Reachable, Justified, Elements;
      if path in scannedFiles {
        return false;
      }
      ghost var dirsBefore := scannedDirs;
      OpenFile(g, root, scannedDirs, scannedFiles, openDirs, openFiles, path);
      scannedFiles := scannedFiles + [path];
      if path !in g.imports {
        CloseFile(g, root, scannedDirs, scannedFiles, openDirs, openFiles, path);
        return false;
      }
      WantedAreReachable(openDirs, openFiles + {path}, path);
      GrownElements(old(scannedFiles), path, scannedFiles);
      ScanDir(g.home[path], openDirs, openFiles + {path});
      var i := 0;
      while i < |g.imports[path]|
        invariant 0 <= i <= |g.imports[path]|
        invariant Holds(openDirs, openFiles + {path}) && g.home[path] in scannedDirs
        invariant dirsBefore <= scannedDirs && old(scannedFiles) + [path] <= scannedFiles
        invariant forall j :: 0 <= j < i ==> Imported(g, g.imports[path][j], scannedDirs, scannedFiles)
      {
        KeptElements(dirsBefore, scannedDirs);
        GrownElements(old(scannedFiles), path, scannedFiles);
        var import_ := g.imports[path][i];
        ghost var dirsHere, filesHere := scannedDirs, scannedFiles;
        if import_.target !in g.existing {
        } else if import_.target !in g.dirs {
        } else if import_.js {
          assert path in scannedFiles && g.Scripts(path, import_.target);
          RecordOther(g, root, scannedDirs, scannedFiles, openDirs, openFiles + {path}, import_.target);
          scannedFiles := scannedFiles + [import_.target];
        } else {
          ScanDir(import_.target, openDirs, openFiles + {path});
        }
        StillImported(path, i, dirsHere, filesHere);
        i := i + 1;
      }
      GrownElements(old(scannedFiles), path, scannedFiles);
      CloseFile(g, root, scannedDirs, scannedFiles, openDirs, openFiles, path);
      return true;
    }

    lemma StillTaken(dir: Path, n: nat, files: seq<Path>)
      requires dir in g.entries && n <= |g.entries[dir]| && files <= scannedFiles
      requires forall j :: 0 <= j < n ==> Taken(g.entries[dir][j], files)
      ensures forall j :: 0 <= j < n ==> Taken(g.entries[dir][j], scannedFiles)
    {
      KeptElements(files, scannedFiles);
      assert forall p :: p in files ==> p in Elements(files);
    }

    lemma StillImported(path: Path, n: nat, dirs: seq<Path>, files: seq<Path>)
      requires path in g.imports && n <= |g.imports[path]| && dirs <= scannedDirs && files <= scannedFiles
      requires forall j :: 0 <= j < n ==> Imported(g, g.imports[path][j], dirs, files)
      ensures forall j :: 0 <= j < n ==> Imported(g, g.imports[path][j], scannedDirs, scannedFiles)
    {
      KeptElements(dirs, scannedDirs);
      KeptElements(files, scannedFiles);
      assert forall p :: p in dirs ==> p in Elements(dirs);
      assert forall p :: p in files ==> p in Elements(files);
    }

    /** Whatever a justified, readable file wants can be reached from the root file. */
    lemma WantedAreReachable(openDirs: set<Path>, openFiles: set<Path>, path: Path)
      requires g.WellFormed() && Holds(openDirs, openFiles) && path in scannedFiles && path in g.imports
      ensures forall d :: g.Wants(path, d) ==> Reachable(g, root, d)
    {
      assert Justified(g, root, scannedDirs, path);
      forall d | g.Wants(path, d) ensures Reachable(g, root, d) {
        if path == root {
          StartReachable(g, root, d);
        } else {
          var c :| c in scannedDirs && g.Lists(c, path);
          StepReachable(g, root, c, path, d);
        }
      }
    }

    /** Anything else with a name in .js is not recorded, unless for another reason. */
    ghost predicate RecordedRightly(i: Import)
      reads this
    {
      i.js && i.target !in g.files && !g.IsJson(i.target) ==> (i.target in scannedFiles <==> i.target in g.dirs)
    }

    /**
      After the root file, the visited directories are exactly those reachable over
      directory imports, the visited QML files are the root and what those directories
      list, and nothing is visited twice.  Besides, exactly the JSON files that parse, of
      visited directories, are recorded, and of what imports ending in .js name the directories.
     */
    method ScanQmlRoot(path: Path)
      requires g.WellFormed() && path in g.files && path == root
      requires scannedDirs == [] && scannedFiles == []
      modifies this
      ensures forall d :: d in scannedDirs <==> Reachable(g, path, d)
      ensures forall f :: f in g.files ==>
                (f in scannedFiles <==> f == path || exists d :: d in scannedDirs && g.Lists(d, f))
      ensures Once(g, scannedDirs, scannedFiles)
      ensures forall p :: p !in g.files ==> (p in scannedFiles <==> Recorded(g, scannedDirs, scannedFiles, p))
      ensures forall f, i :: f in scannedFiles && f in g.imports && 0 <= i < |g.imports[f]| ==>
                RecordedRightly(g.imports[f][i])
    {
      var added := ScanQmlFile(path, {}, {});
      forall d | Reachable(g, path, d) ensures d in scannedDirs {
        var chain :| g.Chain(path, chain) && chain[|chain| - 1] == d;
        ReachableIsVisited(g, path, scannedDirs, scannedFiles, chain);
      }
      AllRecorded();
    }

    lemma AllRecorded()
      requires g.WellFormed() && Invariant(g, root, scannedDirs, scannedFiles, {}, {})
      ensures forall p :: p !in g.files ==> (p in scannedFiles <==> Recorded(g, scannedDirs, scannedFiles, p))
      ensures forall f, i :: f in scannedFiles && f in g.imports && 0 <= i < |g.imports[f]| ==>
                RecordedRightly(g.imports[f][i])
    {
      forall p | p !in g.files && Recorded(g, scannedDirs, scannedFiles, p) ensures p in scannedFiles {
        if d :| d in scannedDirs && g.Offers(d, p) {
          assert ListedIn(g, d, scannedFiles);
          var i :| 0 <= i < |g.entries[d]| && g.entries[d][i] == Json(p, true);
          assert Taken(g.entries[d][i], scannedFiles);
        } else {
          var f :| f in scannedFiles && g.Scripts(f, p);
          assert WantedIn(g, f, scannedDirs, scannedFiles);
          var i :| 0 <= i < |g.imports[f]| && g.imports[f][i] == Import(p, true);
          assert Imported(g, g.imports[f][i], scannedDirs, scannedFiles);
        }
      }
      forall f, i | f in scannedFiles && f in g.imports && 0 <= i < |g.imports[f]|
        ensures RecordedRightly(g.imports[f][i])
      {
        var p := g.imports[f][i].target;
        OffersIsJson(g, p);
        assert g.imports[f][i].js ==> g.Scripts(f, p);
      }
    }
  }

  lemma OffersIsJson(g: Graph, p: Path)
    ensures forall d :: g.Offers(d, p) ==> g.IsJson(p)
  {
    forall d | g.Offers(d, p) ensures g.IsJson(p) {
      var k :| 0 <= k < |g.entries[d]| && g.entries[d][k] == Json(p, true);
    }
  }

  lemma JustifiedByListing(g: Graph, root: Path, dirs: seq<Path>, d: Path, f: Path)
    requires d in dirs && g.Lists(d, f)
    ensures Justified(g, root, dirs, f)
  {}

  /** A root file that imports a script next to it. */
  const SCRIPTED := Graph(
    {"d", "d/shell.qml", "d/x.js"}, {"d"}, {"d/shell.qml"},
    map["d" := [Qml("d/shell.qml"), Other]], map["d/shell.qml" := "d"],
    map["d/shell.qml" := [Import("d/x.js", true)]])

  lemma ScriptedIsWellFormed()
    ensures SCRIPTED.WellFormed() && !SCRIPTED.IsJson("d/x.js")
  {}

  /** The script exists and is imported, but the walk does not record it. */
  method ScanScripted() returns (scannedFiles: seq<Path>)
    ensures "d/x.js" in SCRIPTED.existing && Import("d/x.js", true) in SCRIPTED.imports["d/shell.qml"]
    ensures "d/shell.qml" in scannedFiles && "d/x.js" !in scannedFiles
  {
    ScriptedIsWellFormed();
    var scanner := new QmlScanner(SCRIPTED, "d/shell.qml");
    scanner.ScanQmlRoot("d/shell.qml");
    assert scanner.RecordedRightly(SCRIPTED.imports["d/shell.qml"][0]);
    scannedFiles := scanner.scannedFiles;
  }
}
