/**
  `traverse_files` as a whole, and the "Rename All" action that walks its result with
  `doRename`: the scan, the tree assembly, and what the records they leave behind
  guarantee to the rename walk.
*/
module Traverse {
  import opened Wrappers
  import opened Paths
  import opened Visibility
  import opened FileSystem
  import opened Records
  import opened Romanizer
  import opened Scan
  import opened Assemble
  import opened AssembleFacts
  import opened Rename
  import opened RenameFacts

  /** What `traverse_files` leaves behind: every record, and which of them are `root_files`. */
  datatype Traversal = Traversal(records: seq<FileRecord>, rootFiles: seq<nat>)

  /** The scan of `rootPath` on `platform`, with every name transliterated by `Romanize`. */
  function ScanEnv(rootPath: string, platform: Platform): Env
  {
    Env(rootPath, platform, Romanize)
  }

  /** No index occurs twice in `s`. */
  predicate Distinct(s: seq<nat>)
  {
    forall i, j :: 0 <= i < j < |s| ==> s[i] != s[j]
  }

  lemma {:induction false} SelectDistinct(a: seq<FileRecord>, all: seq<nat>, key: string)
    requires Indices(a, all) && Distinct(all)
    ensures Distinct(Select(a, all, key))
    decreases |all|
  {
    if all != [] {
      var init, k := all[..|all| - 1], all[|all| - 1];
      assert Indices(a, init) && Distinct(init);
      SelectDistinct(a, init, key);
      assert k !in init;
      assert k !in Select(a, init, key);
    }
  }

  lemma ReverseDistinct(s: seq<nat>)
    requires Distinct(s)
    ensures Distinct(Reverse(s))
  {
  }

  /** A key without its leading "." names the path below the scanned directory. */
  lemma KeyPath(root: string, parent: string, name: string)
    requires |parent| > 0
    ensures root + Join(parent, name)[1..] == Join(root + parent[1..], name)
  {
    assert Join(parent, name)[1..] == parent[1..] + "/" + name;
  }

  /** The record a stored child list entry names after the second pass. */
  lemma AssembledChild(a0: seq<FileRecord>, all: seq<nat>, visited: seq<nat>, b: seq<FileRecord>, env: Env, i: nat)
    requires Shaped(a0, |a0|, env) && Indices(a0, all) && Indices(a0, visited) && Assembled(a0, all, visited, b)
    requires i < |b| && b[i].children.Some?
    ensures i in visited && b[i].children.value == StoredChildren(a0, all, i)
    ensures forall c :: c in b[i].children.value <==> c in Discovered(a0, all, i)
  {
    assert Sound(a0[i], env);
    ReverseMembers(Discovered(a0, all, i));
  }

  /** After the second pass, every stored child is one level further down than its lister. */
  lemma AssembledNested(a0: seq<FileRecord>, all: seq<nat>, visited: seq<nat>, b: seq<FileRecord>, env: Env)
    requires Shaped(a0, |a0|, env) && Indices(a0, all) && Indices(a0, visited) && Assembled(a0, all, visited, b)
    ensures Nested(b)
  {
    forall i | 0 <= i < |b| && b[i].children.Some?
      ensures Deeper(b, i, b[i].children.value)
    {
      AssembledChild(a0, all, visited, b, env, i);
      var cs, d := b[i].children.value, Discovered(a0, all, i);
      assert forall j :: 0 <= j < |cs| ==> cs[j] in d;
      forall c | c in cs
        ensures |b[c].parent| > |b[i].parent|
      {
        assert c in d;
      }
    }
  }

  /** The stored children of a record are the entries of its directory, no two with the same name. */
  lemma AssembledFamily(a0: seq<FileRecord>, all: seq<nat>, visited: seq<nat>, b: seq<FileRecord>, env: Env, i: nat)
    requires Shaped(a0, |a0|, env) && Indices(a0, all) && Distinct(all) && Indices(a0, visited)
    requires Assembled(a0, all, visited, b) && Nested(b)
    requires i < |b| && b[i].children.Some?
    ensures Family(b, b[i].children.value, b[i].path)
  {
    AssembledChild(a0, all, visited, b, env, i);
    var cs, d := b[i].children.value, Discovered(a0, all, i);
    forall j | 0 <= j < |cs|
      ensures Segment(b[cs[j]].file.name) && b[cs[j]].path == Join(b[i].path, b[cs[j]].file.name)
    {
      var c := cs[j];
      assert c in d;
      assert Sound(a0[c], env) && Sound(a0[i], env);
      KeyPath(env.rootPath, a0[i].parent, a0[i].file.name);
      KeyPath(env.rootPath, Key(a0[i]), a0[c].file.name);
    }
    if !a0[i].package {
      SelectDistinct(a0, all, Key(a0[i]));
      ReverseDistinct(d);
    }
    forall j, l | 0 <= j < l < |cs|
      ensures b[cs[j]].file.name != b[cs[l]].file.name
    {
      assert cs[j] in d && cs[l] in d;
      if cs[j] < cs[l] {
        assert Key(a0[cs[j]]) != Key(a0[cs[l]]);
      } else {
        assert Key(a0[cs[l]]) != Key(a0[cs[j]]);
      }
    }
  }

  lemma AssembledTree(a0: seq<FileRecord>, all: seq<nat>, visited: seq<nat>, b: seq<FileRecord>, env: Env)
    requires Shaped(a0, |a0|, env) && Indices(a0, all) && Distinct(all) && Indices(a0, visited)
    requires Assembled(a0, all, visited, b)
    ensures Nested(b) && TreeShaped(b)
  {
    AssembledNested(a0, all, visited, b, env);
    forall i | 0 <= i < |b| && b[i].children.Some?
      ensures Family(b, b[i].children.value, b[i].path)
    {
      AssembledFamily(a0, all, visited, b, env, i);
    }
  }

  /** After the second pass, no two unflagged children of one record share a romanized name. */
  lemma AssembledClashFree(a0: seq<FileRecord>, all: seq<nat>, visited: seq<nat>, b: seq<FileRecord>, env: Env)
    requires Shaped(a0, |a0|, env) && Indices(a0, all) && Indices(a0, visited)
    requires Assembled(a0, all, visited, b) && Nested(b)
    ensures ClashFree(b)
  {
    forall i | 0 <= i < |b| && b[i].children.Some?
      ensures Unclashed(b, b[i].children.value)
    {
      AssembledChild(a0, all, visited, b, env, i);
      var cs := b[i].children.value;
      forall j, l | 0 <= j < l < |cs| && b[cs[j]].romanizedName == b[cs[l]].romanizedName
        ensures b[cs[j]].conflicts && b[cs[l]].conflicts
      {
        assert cs[j] in cs && cs[l] in cs;
        CountTwice(a0, cs, j, l);
        ConflictsExact(a0, all, visited, b, i, cs[j]);
        ConflictsExact(a0, all, visited, b, i, cs[l]);
      }
    }
  }

  /** Every record names an entry of its directory, and its romanized name never holds a '/'. */
  lemma AssembledPlaced(a0: seq<FileRecord>, all: seq<nat>, visited: seq<nat>, b: seq<FileRecord>, env: Env)
    requires Shaped(a0, |a0|, env) && env.romanize == Romanize
    requires Indices(a0, all) && Indices(a0, visited) && Assembled(a0, all, visited, b)
    ensures Placed(b)
  {
    forall i | 0 <= i < |b|
      ensures Segment(b[i].file.name) && '/' !in b[i].romanizedName &&
        b[i].path == Join(DirOf(b[i].path), b[i].file.name)
    {
      assert Sound(a0[i], env);
      OutputSymbols(a0[i].file.name);
      KeyPath(env.rootPath, a0[i].parent, a0[i].file.name);
      DirOfJoin(env.rootPath + a0[i].parent[1..], a0[i].file.name);
    }
  }

  /** The root records are the entries of the scanned directory, no two with the same name. */
  lemma RootFamily(a0: seq<FileRecord>, all: seq<nat>, visited: seq<nat>, b: seq<FileRecord>, env: Env, n: nat)
    requires Shaped(a0, |a0|, env) && n <= |a0| && forall i :: 0 <= i < n ==> a0[i].parent == "."
    requires Indices(a0, all) && Indices(a0, visited) && Assembled(a0, all, visited, b)
    ensures Indices(b, Range(0, n)) && Family(b, Range(0, n), env.rootPath)
  {
    var r := Range(0, n);
    forall j | 0 <= j < n
      ensures Segment(b[r[j]].file.name) && b[r[j]].path == Join(env.rootPath, b[r[j]].file.name)
    {
      assert Sound(a0[j], env);
      KeyPath(env.rootPath, ".", a0[j].file.name);
    }
    forall j, l | 0 <= j < l < n
      ensures b[r[j]].file.name != b[r[l]].file.name
    {
      assert Key(a0[j]) != Key(a0[l]);
    }
  }

  /**
    The records the second pass leaves behind form a tree the rename walk can work on,
    starting from the first `n` records when those are the roots.
  */
  lemma Walkable(a0: seq<FileRecord>, all: seq<nat>, visited: seq<nat>, b: seq<FileRecord>, env: Env, n: nat)
    requires Shaped(a0, |a0|, env) && env.romanize == Romanize && all == Completed(a0, env)
    requires n <= |a0| && forall i :: 0 <= i < n ==> a0[i].parent == "."
    requires Indices(a0, visited) && Assembled(a0, all, visited, b)
    ensures Nested(b) && TreeShaped(b) && Placed(b) && ClashFree(b)
    ensures Indices(b, Range(0, n)) && Family(b, Range(0, n), env.rootPath)
  {
    AssembledTree(a0, all, visited, b, env);
    AssembledClashFree(a0, all, visited, b, env);
    AssembledPlaced(a0, all, visited, b, env);
    RootFamily(a0, all, visited, b, env, n);
  }

  /**
    What the two passes of a completed `traverse_files` made: the scan made the root
    records followed by everything the queue listed, `all_files` holds the records
    whose listing completed, the second pass visited them in depth-first preorder
    from the roots and assembled the records from the scan, and the root files are
    the first records made.
  */
  ghost predicate Scanned(rootPath: string, root: Listing, platform: Platform, t: Traversal,
                          scanned: seq<FileRecord>, allFiles: seq<nat>, visited: seq<nat>)
  {
    var env := ScanEnv(rootPath, platform);
    scanned == RootRecords(root.entries, env) + Produced(scanned, env) &&
    allFiles == Completed(scanned, env) &&
    t.rootFiles == Range(0, |RootRecords(root.entries, env)|) &&
    Indices(scanned, visited) && visited == Preorder(scanned, allFiles, Select(scanned, allFiles, ".")) &&
    Assembled(scanned, allFiles, visited, t.records)
  }

  /**
    What a completed `traverse_files` leaves behind: the records of the two passes,
    every one of them as the scan made it, forming a tree of entries the rename walk
    can work on: each children list holds the entries of its lister's directory, no
    two with the same name and no two unflagged ones with the same romanized name,
    and the root files are the entries of the scanned directory.
  */
  ghost predicate Traversed(rootPath: string, root: Listing, platform: Platform, t: Traversal,
                            scanned: seq<FileRecord>, allFiles: seq<nat>, visited: seq<nat>)
  {
    Scanned(rootPath, root, platform, t, scanned, allFiles, visited) &&
    Shaped(scanned, |scanned|, ScanEnv(rootPath, platform)) &&
    Nested(t.records) && TreeShaped(t.records) && Placed(t.records) && ClashFree(t.records) &&
    Indices(t.records, t.rootFiles) && Family(t.records, t.rootFiles, rootPath)
  }

  /** `traverse_files`: `None` exactly when iterating the scanned directory raises. */
  method TraverseFiles(rootPath: string, root: Listing, platform: Platform)
    returns (result: Option<Traversal>, ghost scanned: seq<FileRecord>, ghost allFiles: seq<nat>, ghost visited: seq<nat>)
    requires WellFormedListing(root)
    ensures result.None? <==> root.fails
    ensures result.Some? ==> Traversed(rootPath, root, platform, result.value, scanned, allFiles, visited)
  {
    var env := ScanEnv(rootPath, platform);
    var roots := CollectRoots(root, env);
    if roots.None? {
      return None, [], [], [];
    }
    RootsShaped(root, env);
    var arena, all := Drain(roots.value, env);
    var records;
    records, visited := AssembleTree(arena, all);
    result := Some(Traversal(records, Range(0, |roots.value|)));
    scanned, allFiles := arena, all;
    forall i | 0 <= i < |roots.value|
      ensures scanned[i].parent == "."
    {
      assert scanned[i] == roots.value[i];
    }
    Walkable(scanned, allFiles, visited, records, env, |roots.value|);
  }

  /**
    `b` is `a` with every root file whose romanized name another root file shares
    flagged as conflicting, and nothing else changed.
  */
  predicate RootsMarked(a: seq<FileRecord>, roots: seq<nat>, b: seq<FileRecord>)
    requires Indices(a, roots)
  {
    |b| == |a| &&
    forall i :: 0 <= i < |a| ==> b[i] == a[i].(conflicts := a[i].conflicts || (i in roots && Duplicated(a, roots, i)))
  }

  /**
    The duplicate check the second pass runs on every children list, run on the root
    files as well, which are nobody's children: afterwards no two unflagged root files
    share a romanized name.
  */
  method FlagRootDuplicates(a: seq<FileRecord>, roots: seq<nat>) returns (b: seq<FileRecord>)
    requires Indices(a, roots)
    ensures RootsMarked(a, roots, b) && Unclashed(b, roots)
  {
    var dups := FindDuplicates(a, roots);
    var more := if |dups| > 0 then Flagged(a, roots, dups) else [];
    IndicesByMembers(a, more, roots);
    b := MarkConflicts(a, more);
    forall i | 0 <= i < |a|
      ensures i in more <==> i in roots && Duplicated(a, roots, i)
    {
      if i in roots && Duplicated(a, roots, i) {
        assert a[i].romanizedName in dups;
      }
    }
    forall j, l | 0 <= j < l < |roots| && b[roots[j]].romanizedName == b[roots[l]].romanizedName
      ensures b[roots[j]].conflicts && b[roots[l]].conflicts
    {
      assert roots[j] in roots && roots[l] in roots;
      CountTwice(a, roots, j, l);
    }
  }

  /** `b` is `a` with some more conflict flags set and nothing else changed. */
  predicate MoreFlags(a: seq<FileRecord>, b: seq<FileRecord>)
  {
    |b| == |a| &&
    forall i :: 0 <= i < |a| ==> b[i] == a[i].(conflicts := b[i].conflicts) && (a[i].conflicts ==> b[i].conflicts)
  }

  lemma FamilyKept(a: seq<FileRecord>, b: seq<FileRecord>, ids: seq<nat>, dir: string)
    requires MoreFlags(a, b) && Indices(a, ids) && Family(a, ids, dir)
    ensures Indices(b, ids) && Family(b, ids, dir)
  {
    assert forall i :: 0 <= i < |ids| ==> b[ids[i]].file == a[ids[i]].file && b[ids[i]].path == a[ids[i]].path;
  }

  lemma UnclashedKept(a: seq<FileRecord>, b: seq<FileRecord>, ids: seq<nat>)
    requires MoreFlags(a, b) && Indices(a, ids) && Unclashed(a, ids)
    ensures Indices(b, ids) && Unclashed(b, ids)
  {
  }

  /** Setting more conflict flags keeps the tree a tree the rename walk can work on. */
  lemma MoreFlagsKeep(a: seq<FileRecord>, b: seq<FileRecord>)
    requires MoreFlags(a, b) && Nested(a) && TreeShaped(a) && Placed(a) && ClashFree(a)
    ensures Nested(b) && TreeShaped(b) && Placed(b) && ClashFree(b)
  {
    assert forall i :: 0 <= i < |a| ==> b[i].children == a[i].children;
    forall i | 0 <= i < |b| && b[i].children.Some?
      ensures Deeper(b, i, b[i].children.value)
    {
      assert Deeper(a, i, a[i].children.value);
    }
    forall i | 0 <= i < |b| && b[i].children.Some?
      ensures Family(b, b[i].children.value, b[i].path) && Unclashed(b, b[i].children.value)
    {
      FamilyKept(a, b, a[i].children.value, a[i].path);
      UnclashedKept(a, b, a[i].children.value);
    }
  }

  /**
    Once the root files are checked for collisions too, the walk from them renames
    safely and no two of its renames share a target.
  */
  lemma MarkedWalk(a: seq<FileRecord>, ids: seq<nat>, dir: string, b: seq<FileRecord>)
    requires Nested(a) && TreeShaped(a) && Placed(a) && ClashFree(a)
    requires Indices(a, ids) && Family(a, ids, dir) && RootsMarked(a, ids, b) && Unclashed(b, ids)
    ensures Nested(b) && Indices(b, ids) && RenamesSafely(b, ids) && TargetsApart(Walk(b, ids).log)
  {
    MoreFlagsKeep(a, b);
    FamilyKept(a, b, ids, dir);
    WalkSafe(b, ids, dir);
    WalkTargetsApart(b, ids, dir);
  }

  /**
    The "Rename All" action: scan the directory, flag the root files whose romanized
    names collide, then run `doRename` on the root files. The walk renames safely
    (see `RenamesSafely`) and no two of its renames share a target.
  */
  method RenameAll(rootPath: string, root: Listing, platform: Platform)
    returns (t: Option<Traversal>, marked: seq<FileRecord>, run: Option<RenameRun>)
    requires WellFormedListing(root)
    ensures t.None? <==> root.fails
    ensures run.Some? <==> t.Some?
    ensures t.Some? ==>
      var ids := t.value.rootFiles;
      Indices(t.value.records, ids) && RootsMarked(t.value.records, ids, marked) &&
      Nested(marked) && Indices(marked, ids) && run.value == Walk(marked, ids) &&
      RenamesSafely(marked, ids) && TargetsApart(run.value.log)
  {
    ghost var scanned, allFiles, visited;
    t, scanned, allFiles, visited := TraverseFiles(rootPath, root, platform);
    if t.None? {
      return None, [], None;
    }
    var ids := t.value.rootFiles;
    marked := FlagRootDuplicates(t.value.records, ids);
    MarkedWalk(t.value.records, ids, rootPath, marked);
    var log, halted := DoRename(marked, ids);
    run := Some(RenameRun(log, halted));
  }
}
