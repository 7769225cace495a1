/** Where the results go: the split of the engine's output directory into the
    top-level `*.pdb` files and everything else, and the remote location the
    cleaned directory is uploaded to. */
module Layout {
  import opened Outcomes
  import opened PyText

  const DefaultRoot := "latch:///ColabFold Outputs/"

  // ---------------------------------------------------------------------------
  // The remote location

  /** `_fmt_dir(bucket_path)`: drop one trailing slash; an empty path raises
      `IndexError` at `bucket_path[-1]`. */
  function FmtDir(path: string): (r: Result<string, Failure>)
    ensures r.Failure? <==> path == []
    ensures r.Failure? ==> r.error == EmptyOutputDir
    ensures r.Success? ==> r.value == path || r.value + "/" == path
    ensures r.Success? ==> (r.value + "/" == path <==> path[|path| - 1] == '/')
  {
    if path == [] then Failure(EmptyOutputDir)
    else if path[|path| - 1] == '/' then Success(path[..|path| - 1])
    else Success(path)
  }

  /** Exactly one trailing slash is dropped, whatever precedes it. */
  lemma FmtDirDropsOne(d: string)
    ensures FmtDir(d + "/") == Success(d)
  {
    assert (d + "/")[..|d|] == d;
  }

  /** A non-empty path without a trailing slash is left as it is. */
  lemma FmtDirKeeps(d: string)
    requires d != [] && d[|d| - 1] != '/'
    ensures FmtDir(d) == Success(d)
  {
  }

  /** So a location given with or without its trailing slash names the same directory. */
  lemma FmtDirSlashIrrelevant(d: string)
    requires d != [] && d[|d| - 1] != '/'
    ensures FmtDir(d + "/") == FmtDir(d)
  {
    FmtDirDropsOne(d);
  }

  /** The remote path of the results: the run's name under the chosen
      directory, or under the default root. */
  function OutputLocation(outputDir: Option<string>, runName: string): (r: Result<string, Failure>)
    ensures outputDir.None? ==> r == Success(DefaultRoot + runName)
    ensures outputDir.Some? ==> (r.Failure? <==> outputDir.value == [])
    ensures r.Failure? ==> r.error == EmptyOutputDir
    ensures r.Success? ==> EndsWith(r.value, "/" + runName)
    ensures outputDir.Some? && r.Success? ==>
      var d := r.value[..|r.value| - |runName| - 1];
      d == outputDir.value || d + "/" == outputDir.value
    ensures outputDir.Some? && outputDir.value != [] ==>
      r == Success(FmtDir(outputDir.value).value + "/" + runName)
  {
    match outputDir
    case None =>
      var r := DefaultRoot + runName;
      assert r[|r| - |runName| - 1..] == "/" + runName;
      Success(r)
    case Some(dir) =>
      match FmtDir(dir)
      case Failure(e) => Failure(e)
      case Success(d) =>
        var r := d + "/" + runName;
        assert r[|r| - |runName| - 1..] == "/" + runName;
        assert r[..|r| - |runName| - 1] == d;
        Success(r)
  }

  /** A chosen directory given with or without its trailing slash gives the
      same upload path. */
  lemma OutputLocationSlashIrrelevant(d: string, runName: string)
    requires d != [] && d[|d| - 1] != '/'
    ensures OutputLocation(Some(d + "/"), runName) == OutputLocation(Some(d), runName)
    ensures OutputLocation(Some(d), runName) == Success(d + "/" + runName)
  {
    FmtDirSlashIrrelevant(d);
    FmtDirKeeps(d);
  }

  // ---------------------------------------------------------------------------
  // The output directory

  /** The first component of a path relative to the output directory: the
      top-level entry the path lies in (or is). */
  function TopEntry(path: string): (r: string)
    ensures '/' !in r
  {
    Split(path, '/')[0]
  }

  /** A path without a separator is its own top-level entry. */
  lemma TopEntryOfName(name: string)
    requires '/' !in name
    ensures TopEntry(name) == name
  {
    SplitJoin([name], '/');
  }

  /** A path below a directory lies in that directory's top-level entry. */
  lemma TopEntryBelow(dir: string, rest: string)
    requires '/' !in dir
    ensures TopEntry(dir + "/" + rest) == dir
  {
    assert dir + "/" + rest == dir + ("/" + rest);
    SplitPrefix(dir, "/" + rest, '/');
    assert ("/" + rest)[0] == '/';
  }

  /** What `glob("*.pdb")` matches among the top-level entries. */
  predicate IsPdbName(name: string)
  {
    EndsWith(name, ".pdb")
  }

  /** The paths that end up under `pdb results`: those inside a top-level entry
      whose name ends in `.pdb`. */
  function PdbResults(tree: set<string>): set<string>
  {
    set p | p in tree && IsPdbName(TopEntry(p))
  }

  /** The paths that end up under `other`: all the rest. */
  function OtherFiles(tree: set<string>): set<string>
  {
    set p | p in tree && !IsPdbName(TopEntry(p))
  }

  /** Nothing is lost and nothing is in both places. */
  lemma PartitionExact(tree: set<string>)
    ensures PdbResults(tree) + OtherFiles(tree) == tree
    ensures PdbResults(tree) !! OtherFiles(tree)
  {
  }

  /** Every top-level `.pdb` file goes to `pdb results`; a `.pdb` file further
      down goes with its top-level entry, so to `other` unless that entry's
      name ends in `.pdb` itself. */
  lemma PdbPlacement(tree: set<string>, dir: string, name: string)
    requires '/' !in dir && '/' !in name
    ensures name in tree && IsPdbName(name) ==> name in PdbResults(tree)
    ensures dir + "/" + name in tree && !IsPdbName(dir) ==> dir + "/" + name in OtherFiles(tree)
  {
    TopEntryOfName(name);
    TopEntryBelow(dir, name);
  }

  /** Part way through the moves: the paths moved so far and those left make
      up the tree; every path moved lies in a `.pdb` entry; every path left in a
      `.pdb` entry has its entry still to be moved. */
  predicate Moving(tree: set<string>, moved: set<string>, remaining: set<string>, matches: set<string>)
  {
    && moved + remaining == tree && moved !! remaining
    && (forall p :: p in moved ==> IsPdbName(TopEntry(p)))
    && (forall p :: p in remaining && IsPdbName(TopEntry(p)) ==> TopEntry(p) in matches)
    && (forall m :: m in matches ==> IsPdbName(m))
  }

  /** Moving one matched entry keeps the moves on track. */
  lemma MoveEntry(tree: set<string>, moved: set<string>, remaining: set<string>, matches: set<string>, name: string)
    requires Moving(tree, moved, remaining, matches) && name in matches
    ensures var entry := set p | p in remaining && TopEntry(p) == name;
      Moving(tree, moved + entry, remaining - entry, matches - {name})
  {
  }

  /** Once no match is left, the moved paths and the rest are the two folders. */
  lemma MovesDone(tree: set<string>, moved: set<string>, remaining: set<string>)
    requires Moving(tree, moved, remaining, {})
    ensures moved == PdbResults(tree) && remaining == OtherFiles(tree)
  {
  }

  /** The moves: each top-level entry that `glob("*.pdb")` yields is moved,
      with everything inside it, into `pdb results`; what is left of the
      output directory is then moved as a whole to `other`. */
  method Partition(tree: set<string>) returns (pdbResults: set<string>, other: set<string>)
    ensures pdbResults == PdbResults(tree)
    ensures other == OtherFiles(tree)
    ensures pdbResults + other == tree && pdbResults !! other
  {
    var matches := set p | p in tree && IsPdbName(TopEntry(p)) :: TopEntry(p);
    var remaining := tree;
    pdbResults := {};
    while matches != {}
      invariant Moving(tree, pdbResults, remaining, matches)
      decreases |matches|
    {
      var name :| name in matches;
      var moved := set p | p in remaining && TopEntry(p) == name;
      MoveEntry(tree, pdbResults, remaining, matches, name);
      pdbResults := pdbResults + moved;
      remaining := remaining - moved;
      matches := matches - {name};
    }
    MovesDone(tree, pdbResults, remaining);
    other := remaining;
  }
}
