/**
  Root files that romanize alike. The second pass compares the romanized names of
  the children of every record it visits, but the root files are nobody's children,
  so two of them that romanize alike are never flagged, and `doRename` gives both
  the same new path. This module shows it on a scanned directory holding two plain
  files, and shows that the extra check `FlagRootDuplicates` closes the gap. It also
  shows two targets the sibling check cannot see: ".." and a hidden sibling's name.
*/
module Collision {
  import opened Wrappers
  import opened Paths
  import opened Visibility
  import opened FileSystem
  import opened Records
  import opened Romanizer
  import opened Scan
  import opened Assemble
  import opened AssembleFacts
  import opened Rename
  import opened RenameFacts
  import opened Traverse

  /** The record is a directory that is not a symbolic link: the only kind the queue lists. */
  predicate Lister(r: FileRecord)
  {
    r.file.isDir && !r.file.isSymlink
  }

  /** How many records of `rs` are listed. */
  function Listers(rs: seq<FileRecord>): nat
  {
    if rs == [] then 0 else Listers(rs[..|rs| - 1]) + (if Lister(rs[|rs| - 1]) then 1 else 0)
  }

  /** The total size of the trees below the listed records of `rs`. */
  function ListerWeight(rs: seq<FileRecord>): nat
  {
    if rs == [] then 0 else ListerWeight(rs[..|rs| - 1]) + (if Lister(rs[|rs| - 1]) then Size(rs[|rs| - 1].file) else 0)
  }

  /** Every listing appends strictly less than the tree it lists, and a record that is not listed appends nothing. */
  lemma {:induction false} ProducedWeight(a: seq<FileRecord>, env: Env)
    ensures Weight(Produced(a, env)) + Listers(a) <= ListerWeight(a)
  {
    if a != [] {
      var t := a[|a| - 1];
      ProducedWeight(a[..|a| - 1], env);
      WeightConcat(Produced(a[..|a| - 1], env), Expand(t, env).records);
      ExpandWeight(t, env);
    }
  }

  lemma {:induction false} ListerWeightAtMost(rs: seq<FileRecord>)
    ensures Listers(rs) <= ListerWeight(rs) <= Weight(rs)
    ensures Listers(rs) == 0 ==> ListerWeight(rs) == 0
  {
    if rs != [] {
      ListerWeightAtMost(rs[..|rs| - 1]);
    }
  }

  /** Records that are not listed add nothing to `Listers` and `ListerWeight`. */
  lemma {:induction false} ListersAfter(r: seq<FileRecord>, p: seq<FileRecord>)
    requires forall i :: 0 <= i < |r| ==> !Lister(r[i])
    ensures Listers(r + p) == Listers(p) && ListerWeight(r + p) == ListerWeight(p)
    decreases |p|
  {
    if p == [] {
      assert r + p == r;
      NoListers(r);
    } else {
      assert (r + p)[..|r + p| - 1] == r + p[..|p| - 1];
      ListersAfter(r, p[..|p| - 1]);
    }
  }

  lemma {:induction false} NoListers(r: seq<FileRecord>)
    requires forall i :: 0 <= i < |r| ==> !Lister(r[i])
    ensures Listers(r) == 0 && ListerWeight(r) == 0
  {
    if r != [] {
      NoListers(r[..|r| - 1]);
    }
  }

  /** A scan whose root records are none of them directories lists nothing: the arena is the root records. */
  lemma OnlyRoots(r: seq<FileRecord>, a: seq<FileRecord>, env: Env)
    requires forall i :: 0 <= i < |r| ==> !Lister(r[i])
    requires a == r + Produced(a, env)
    ensures a == r
  {
    var p := Produced(a, env);
    ProducedWeight(a, env);
    ListersAfter(r, p);
    ListerWeightAtMost(p);
    assert a == r + [];
  }

  /** A plain file named `name`. */
  function PlainFile(name: string): FsEntry
  {
    FsEntry(name, false, false, Package(false), Listing([], false))
  }

  /** The scanned directory "d" on a POSIX system that is not macOS. */
  const Dir: string := "d"
  const Posix: Platform := Platform(false, true)

  /** A directory listing that holds two plain files whose names are the symbols `x` and `y`. */
  function TwoFiles(x: char, y: char): Listing
  {
    Listing([PlainFile([x]), PlainFile([y])], false)
  }

  /** A plain file whose one-symbol name is neither '.' nor '/' is well formed and admitted. */
  lemma PlainAdmitted(c: char)
    requires c != '.' && c != '/'
    ensures WellFormed(PlainFile([c])) && Segment([c]) && Admitted(PlainFile([c]), ScanEnv(Dir, Posix))
  {
    assert RFind([c], '.') == -1;
  }

  /** The root record the scan makes for the file named by the one symbol `c`. */
  function RootOf(c: char): FileRecord
  {
    RootRecord(PlainFile([c]), ScanEnv(Dir, Posix))
  }

  lemma TwoFilesScan(x: char, y: char)
    requires x != y && x !in "./" && y !in "./"
    ensures WellFormedListing(TwoFiles(x, y))
    ensures RootRecords(TwoFiles(x, y).entries, ScanEnv(Dir, Posix)) == [RootOf(x), RootOf(y)]
  {
    var env := ScanEnv(Dir, Posix);
    var es := TwoFiles(x, y).entries;
    PlainAdmitted(x);
    PlainAdmitted(y);
    assert es[..1] == [PlainFile([x])] && es[..1][..0] == [];
    assert RootRecords(es[..1], env) == [RootOf(x)];
    assert [x] != [y];
  }

  /** Scanning the two files makes their two root records and nothing else. */
  lemma TwoFilesScanned(x: char, y: char, scanned: seq<FileRecord>)
    requires x != y && x !in "./" && y !in "./"
    requires scanned == RootRecords(TwoFiles(x, y).entries, ScanEnv(Dir, Posix)) + Produced(scanned, ScanEnv(Dir, Posix))
    ensures scanned == [RootOf(x), RootOf(y)]
    ensures |RootRecords(TwoFiles(x, y).entries, ScanEnv(Dir, Posix))| == 2
  {
    TwoFilesScan(x, y);
    OnlyRoots([RootOf(x), RootOf(y)], scanned, ScanEnv(Dir, Posix));
  }

  /** The root record for a one-symbol name other than '/' is an unflagged plain file that is renamed beside itself. */
  lemma RootOfFacts(c: char)
    requires c != '/'
    ensures RootOf(c).parent == "." && !Lister(RootOf(c)) && !RootOf(c).conflicts
    ensures RootOf(c).romanizedName == Romanize([c])
    ensures RootOf(c).path == Join(Dir, [c]) && WithName(RootOf(c).path, Romanize([c])) == Join(Dir, Romanize([c]))
  {
    OutputSymbols([c]);
    WithNameJoin(Dir, [c], Romanize([c]));
  }

  /** Two root records that are plain files both complete their listing. */
  lemma TwoRootsCompleted(a0: seq<FileRecord>, env: Env)
    requires |a0| == 2 && !Lister(a0[0]) && !Lister(a0[1])
    ensures Completed(a0, env) == [0, 1]
  {
    assert a0[..1][..0] == [] && a0[..2] == a0;
    assert Expand(a0[0], env) == Expansion([], true) && Expand(a0[1], env) == Expansion([], true);
    assert Completed(a0[..1], env) == [0];
  }

  /** Two completed root records are the roots, and neither has children. */
  lemma TwoRootsListed(a0: seq<FileRecord>, all: seq<nat>)
    requires |a0| == 2 && a0[0].parent == "." && a0[1].parent == "." && all == [0, 1]
    ensures Select(a0, all, ".") == [0, 1]
    ensures Discovered(a0, all, 0) == [] && Discovered(a0, all, 1) == []
  {
    assert all[..1] == [0] && [0][..0] == [];
    forall i | 0 <= i < 2
      ensures Select(a0, all, Key(a0[i])) == []
    {
      KeyNotRoot(a0[i]);
      assert Select(a0, [0], Key(a0[i])) == [];
    }
    assert Select(a0, [0], ".") == [0];
  }

  /** Two records without children are visited in order. */
  lemma TwoLeavesVisited(a0: seq<FileRecord>, all: seq<nat>)
    requires |a0| == 2 && Indices(a0, all) && Discovered(a0, all, 0) == [] && Discovered(a0, all, 1) == []
    ensures Preorder(a0, all, [0, 1]) == [0, 1]
  {
    assert [0, 1][1..] == [1] && [1][1..] == [];
    assert Preorder(a0, all, [1]) == [1];
  }

  /** After the second pass, two root records that are plain files and unflagged are unflagged leaves. */
  lemma TwoRootsAssembled(a0: seq<FileRecord>, env: Env, all: seq<nat>, visited: seq<nat>, b: seq<FileRecord>)
    requires |a0| == 2 && a0[0].parent == "." && a0[1].parent == "." && !Lister(a0[0]) && !Lister(a0[1])
    requires !a0[0].conflicts && !a0[1].conflicts
    requires all == Completed(a0, env) && Indices(a0, visited) && visited == Preorder(a0, all, Select(a0, all, "."))
    requires Assembled(a0, all, visited, b)
    ensures b == [a0[0].(children := Some([])), a0[1].(children := Some([]))]
  {
    TwoRootsCompleted(a0, env);
    TwoRootsListed(a0, all);
    TwoLeavesVisited(a0, all);
    forall i | 0 <= i < 2
      ensures b[i] == a0[i].(children := Some([]))
    {
      RootsNeverFlagged(a0, all, visited, b, i);
      assert i in visited;
    }
  }

  /** What `traverse_files` leaves behind for the two files: two unflagged leaves. */
  lemma TwoFilesTraversed(x: char, y: char, t: Traversal, scanned: seq<FileRecord>, allFiles: seq<nat>, visited: seq<nat>)
    requires x != '/' && y != '/' && scanned == [RootOf(x), RootOf(y)]
    requires allFiles == Completed(scanned, ScanEnv(Dir, Posix))
    requires Indices(scanned, visited) && visited == Preorder(scanned, allFiles, Select(scanned, allFiles, "."))
    requires Assembled(scanned, allFiles, visited, t.records)
    ensures t.records == [RootOf(x).(children := Some([])), RootOf(y).(children := Some([]))]
  {
    RootOfFacts(x);
    RootOfFacts(y);
    TwoRootsAssembled(scanned, ScanEnv(Dir, Posix), allFiles, visited, t.records);
  }

  /** Two unflagged leaves with acceptable romanized names: the walk renames the first, then the second. */
  lemma TwoLeavesWalk(b: seq<FileRecord>)
    requires |b| == 2 && forall i :: 0 <= i < 2 ==> b[i].children == Some([]) && !b[i].conflicts && !Refused(b[i].romanizedName)
    ensures Nested(b) && Indices(b, [0, 1])
    ensures Walk(b, [0, 1]).log == [RenameOf(b, 0), RenameOf(b, 1)]
  {
    assert [0, 1][1..] == [1] && [1][1..] == [];
    assert Walk(b, [1]).log == [RenameOf(b, 1)];
  }

  /** The walk over two such leaves whose names romanize alike gives both the same target. */
  lemma CollidingWalk(x: char, y: char, b: seq<FileRecord>)
    requires x != '/' && y != '/' && Romanize([x]) == Romanize([y]) && !Refused(Romanize([x]))
    requires b == [RootOf(x).(children := Some([])), RootOf(y).(children := Some([]))]
    ensures Nested(b) && Indices(b, [0, 1])
    ensures Walk(b, [0, 1]).log == [Rename(Join(Dir, [x]), Join(Dir, Romanize([x]))), Rename(Join(Dir, [y]), Join(Dir, Romanize([x])))]
    ensures !TargetsApart(Walk(b, [0, 1]).log)
  {
    RootOfFacts(x);
    RootOfFacts(y);
    TwoLeavesWalk(b);
    var log := Walk(b, [0, 1]).log;
    assert log[0].target == log[1].target;
  }

  /**
    As written, `traverse_files` on a directory holding two files whose names are
    different symbols that romanize alike, followed by `doRename` on its root files,
    moves both files to the same path: the second rename replaces the file the
    first one made.
  */
  lemma SameTarget(x: char, y: char, t: Traversal, scanned: seq<FileRecord>, allFiles: seq<nat>, visited: seq<nat>)
    requires x != y && x !in "./" && y !in "./" && Romanize([x]) == Romanize([y]) && !Refused(Romanize([x]))
    requires Scanned(Dir, TwoFiles(x, y), Posix, t, scanned, allFiles, visited)
    ensures Nested(t.records) && Indices(t.records, t.rootFiles)
    ensures Walk(t.records, t.rootFiles).log == [Rename(Join(Dir, [x]), Join(Dir, Romanize([x]))), Rename(Join(Dir, [y]), Join(Dir, Romanize([x])))]
    ensures !TargetsApart(Walk(t.records, t.rootFiles).log)
  {
    TwoFilesScanned(x, y, scanned);
    assert t.rootFiles == [0, 1];
    TwoFilesTraversed(x, y, t, scanned, allFiles, visited);
    CollidingWalk(x, y, t.records);
  }

  /** HAA and HHA, two different letters, both romanize to "h". */
  lemma AlikeNames()
    ensures Haa != Hha && Romanize([Haa]) == "h" && Romanize([Hha]) == "h"
  {
    assert ConsonantEntry(Haa) == Some("h") && Entry(Haa) == Some("h");
    assert ConsonantEntry(Hha) == Some("h") && Entry(Hha) == Some("h");
    SingleSymbol(Haa);
    SingleSymbol(Hha);
  }

  /** Files named HAA and HHA in "d" are both renamed to "d/h". */
  lemma HaaHhaCollide(x: char, y: char, t: Traversal, scanned: seq<FileRecord>, allFiles: seq<nat>, visited: seq<nat>)
    requires x == Haa && y == Hha
    requires Scanned(Dir, TwoFiles(x, y), Posix, t, scanned, allFiles, visited)
    ensures Nested(t.records) && Indices(t.records, t.rootFiles)
    ensures Walk(t.records, t.rootFiles).log == [Rename(Join(Dir, [x]), Join(Dir, "h")), Rename(Join(Dir, [y]), Join(Dir, "h"))]
    ensures !TargetsApart(Walk(t.records, t.rootFiles).log)
  {
    AlikeNames();
    assert Romanize([x]) == "h";
    SameTarget(x, y, t, scanned, allFiles, visited);
  }

  /**
    A name made of HAMZA, whose replacement is empty, followed by ".." is visible on
    POSIX and romanizes to "..", which `with_name` accepts: the rename target is the
    entry's directory joined with "..", a path naming the directory's parent rather
    than an entry beside the one renamed.
  */
  lemma DotDotTarget(x: char)
    requires x == Hamza
    ensures FileVisible([x, '.', '.'], Posix)
    ensures Romanize([x, '.', '.']) == ".." && !Refused("..")
    ensures WithName(Join(Dir, [x, '.', '.']), Romanize([x, '.', '.'])) == Join(Dir, "..")
  {
    var name := [x, '.', '.'];
    assert Entry(Hamza) == Some("") && Hamza in Letters && Letters[Hamza] == "";
    assert Entry('.') == None && '.' !in Letters;
    NoAynIsLookup(name);
    assert name[..2] == [x, '.'] && name[..2][..1] == [x] && [x][..0] == [];
    assert Lookup(Letters, x) == "" && Lookup(Letters, '.') == ".";
    assert LookupAll(Letters, [x]) == "";
    assert LookupAll(Letters, [x, '.']) == ".";
    assert LookupAll(Letters, name) == "..";
    WithNameJoin(Dir, name, "..");
  }

  /**
    A name made of HAMZA followed by ".a" is visible on POSIX (its last '.' is not its
    first symbol) but romanizes to ".a", which is hidden. The scan never records a
    hidden entry, so no sibling list holds ".a" to clash with, and `with_name` accepts
    the name: the rename target is the path of the hidden sibling `d/.a`.
  */
  lemma HiddenSiblingTarget(x: char)
    requires x == Hamza
    ensures FileVisible([x, '.', 'a'], Posix)
    ensures Romanize([x, '.', 'a']) == ".a" && !FileVisible(".a", Posix) && !Refused(".a")
    ensures WithName(Join(Dir, [x, '.', 'a']), Romanize([x, '.', 'a'])) == Join(Dir, ".a")
  {
    var name := [x, '.', 'a'];
    assert name[1] == '.';
    HamzaDotA(x);
    WithNameJoin(Dir, name, ".a");
  }

  /** HAMZA, whose replacement is empty, followed by ".a" romanizes to ".a". */
  lemma HamzaDotA(x: char)
    requires x == Hamza
    ensures Romanize([x, '.', 'a']) == ".a"
  {
    var name := [x, '.', 'a'];
    assert Entry(Hamza) == Some("") && Hamza in Letters && Letters[Hamza] == "";
    assert Entry('.') == None && '.' !in Letters;
    assert Entry('a') == None && 'a' !in Letters;
    NoAynIsLookup(name);
    assert name[..2] == [x, '.'] && name[..2][..1] == [x] && [x][..0] == [];
    assert Lookup(Letters, x) == "" && Lookup(Letters, '.') == "." && Lookup(Letters, 'a') == "a";
    assert LookupAll(Letters, [x]) == "";
    assert LookupAll(Letters, [x, '.']) == ".";
  }
}
