/**
  The first pass of `traverse_files`: collect the visible root entries, then walk
  the queue breadth first, listing every directory that is not a symbolic link and
  appending what it lists to the back of the queue. A record whose listing ran to
  its end goes into `all_files`; one whose listing raised does not, but the
  records it had already appended stay queued.
*/
module Scan {
  import opened Wrappers
  import opened Paths
  import opened Visibility
  import opened FileSystem
  import opened Records

  /**
    What the scan runs against: the scanned directory's path, the platform, and the
    transliteration applied to every name (`Romanizer.Romanize` in `TraverseFiles`).
  */
  datatype Env = Env(rootPath: string, platform: Platform, romanize: string -> string)

  /** The entry is listed (not hidden) and its package probe answered. */
  predicate Admitted(e: FsEntry, env: Env)
  {
    FileVisible(e.name, env.platform) && PackageProbe(e, env.platform).Package?
  }

  /** A new dictionary: nothing flagged yet and no `children` key. */
  function NewRecord(e: FsEntry, path: string, parent: string, romanizedParent: string,
                     romanizedName: string, isPackage: bool): FileRecord
  {
    FileRecord(e, path, parent, romanizedParent, romanizedName, false, isPackage, None)
  }

  /** The dictionary for root entry `e`: its parent and romanized parent are both ".". */
  function RootRecord(e: FsEntry, env: Env): FileRecord
    requires PackageProbe(e, env.platform).Package?
  {
    NewRecord(e, Join(env.rootPath, e.name), ".", ".", env.romanize(e.name), PackageProbe(e, env.platform).isPackage)
  }

  /**
    The dictionary for entry `e` listed in the directory of record `t`: the parent
    is `t`'s parent extended by `t`'s name, the romanized parent is `t`'s romanized
    parent extended by `t`'s romanized name.
  */
  function ChildOf(t: FileRecord, e: FsEntry, env: Env): FileRecord
    requires PackageProbe(e, env.platform).Package?
  {
    NewRecord(e, Join(t.path, e.name), Key(t), t.romanizedParent + "/" + t.romanizedName,
              env.romanize(e.name), PackageProbe(e, env.platform).isPackage)
  }

  /** The root dictionaries made from the entries `es` of the scanned directory, in listing order. */
  function RootRecords(es: seq<FsEntry>, env: Env): seq<FileRecord>
  {
    if es == [] then []
    else
      var rs := RootRecords(es[..|es| - 1], env);
      var e := es[|es| - 1];
      if !FileVisible(e.name, env.platform) then rs
      else match PackageProbe(e, env.platform)
        case ProbeFails => rs
        case Package(_) => rs + [RootRecord(e, env)]
  }

  /**
    Each root dictionary stands for one entry of the listing that is visible and whose
    package probe answered, and each such entry has its dictionary: hidden entries are
    skipped, and so is an entry whose probe raises `OSError`.
  */
  lemma {:induction false} RootRecordsFacts(es: seq<FsEntry>, env: Env)
    ensures forall r :: r in RootRecords(es, env) ==>
      r.file in es && Admitted(r.file, env) && r == RootRecord(r.file, env)
    ensures forall e :: e in es && Admitted(e, env) ==>
      RootRecord(e, env) in RootRecords(es, env)
  {
    if es != [] {
      RootRecordsFacts(es[..|es| - 1], env);
      assert forall f :: f in es[..|es| - 1] ==> f in es;
      assert forall f :: f in es ==> f in es[..|es| - 1] || f == es[|es| - 1];
    }
  }

  /**
    The dictionaries appended while iterating over the entries `es` of `t`'s
    directory, and whether the iteration ran to its end: a visible entry whose
    package probe raises ends it early.
  */
  datatype Expansion = Expansion(records: seq<FileRecord>, complete: bool)

  function ListingRecords(t: FileRecord, es: seq<FsEntry>, env: Env): Expansion
  {
    if es == [] then Expansion([], true)
    else
      var x := ListingRecords(t, es[..|es| - 1], env);
      var e := es[|es| - 1];
      if !x.complete || !FileVisible(e.name, env.platform) then x
      else match PackageProbe(e, env.platform)
        case ProbeFails => Expansion(x.records, false)
        case Package(_) => Expansion(x.records + [ChildOf(t, e, env)], true)
  }

  /** Every dictionary appended stands for a visible entry of the listing whose probe answered. */
  lemma {:induction false} ListingMembers(t: FileRecord, es: seq<FsEntry>, env: Env)
    ensures forall r :: r in ListingRecords(t, es, env).records ==>
      r.file in es && Admitted(r.file, env) && r == ChildOf(t, r.file, env)
  {
    if es != [] {
      var prefix := es[..|es| - 1];
      ListingMembers(t, prefix, env);
      assert forall f :: f in prefix ==> f in es;
    }
  }

  /**
    The iteration completes exactly when no visible entry's probe raises, and then
    every such entry has its dictionary.
  */
  lemma {:induction false} ListingCompletes(t: FileRecord, es: seq<FsEntry>, env: Env)
    ensures ListingRecords(t, es, env).complete <==>
      forall e :: e in es && FileVisible(e.name, env.platform) ==> PackageProbe(e, env.platform).Package?
    ensures ListingRecords(t, es, env).complete ==>
      forall e :: e in es && Admitted(e, env) ==> ChildOf(t, e, env) in ListingRecords(t, es, env).records
  {
    if es != [] {
      var prefix := es[..|es| - 1];
      ListingCompletes(t, prefix, env);
      assert forall f :: f in prefix ==> f in es;
      assert forall f :: f in es ==> f in prefix || f == es[|es| - 1];
    }
  }

  /** No two of the records `rs` are for entries of the same name. */
  predicate NamesApart(rs: seq<FileRecord>)
  {
    forall i, j :: 0 <= i < j < |rs| ==> rs[i].file.name != rs[j].file.name
  }

  /** Entries with distinct names give dictionaries with distinct names. */
  lemma {:induction false} ListingNames(t: FileRecord, es: seq<FsEntry>, env: Env)
    requires DistinctNames(es)
    ensures NamesApart(ListingRecords(t, es, env).records)
  {
    if es != [] {
      var prefix := es[..|es| - 1];
      var e := es[|es| - 1];
      assert DistinctNames(prefix);
      ListingNames(t, prefix, env);
      var x := ListingRecords(t, prefix, env);
      if x.complete && FileVisible(e.name, env.platform) && PackageProbe(e, env.platform).Package? {
        ListingMembers(t, prefix, env);
        var rs := x.records + [ChildOf(t, e, env)];
        assert ListingRecords(t, es, env).records == rs;
        forall i, j | 0 <= i < j < |rs|
          ensures rs[i].file.name != rs[j].file.name
        {
          if j == |x.records| {
            assert x.records[i] in x.records;
            var k :| 0 <= k < |prefix| && prefix[k] == x.records[i].file;
            assert rs[i] == x.records[i] && rs[j].file == es[|es| - 1] && prefix[k] == es[k];
          } else {
            assert rs[i] == x.records[i] && rs[j] == x.records[j];
          }
        }
      }
    }
  }

  /**
    What listing record `t` appends to the queue, and whether `t` then goes into
    `all_files`: only a directory that is not a symbolic link is listed (whether it is
    a package does not matter), and a listing that raised leaves `t` out.
  */
  function Expand(t: FileRecord, env: Env): Expansion
  {
    if t.file.isDir && !t.file.isSymlink then
      var x := ListingRecords(t, t.file.listing.entries, env);
      Expansion(x.records, x.complete && !t.file.listing.fails)
    else Expansion([], true)
  }

  /**
    Only a directory that is not a symbolic link appends anything; what it appends
    stands for visible entries of its listing, with distinct names; it completes
    exactly when its listing does not raise and no visible entry's probe raises,
    and a completed listing appends a dictionary for every such entry.
  */
  lemma ExpandFacts(t: FileRecord, env: Env)
    ensures Expand(t, env).records != [] ==> t.file.isDir && !t.file.isSymlink
    ensures forall r :: r in Expand(t, env).records ==>
      r.file in t.file.listing.entries && Admitted(r.file, env) && r == ChildOf(t, r.file, env)
    ensures Expand(t, env).complete <==>
      !(t.file.isDir && !t.file.isSymlink) ||
      (!t.file.listing.fails &&
       forall e :: e in t.file.listing.entries && FileVisible(e.name, env.platform) ==> PackageProbe(e, env.platform).Package?)
    ensures Expand(t, env).complete && t.file.isDir && !t.file.isSymlink ==>
      forall e :: e in t.file.listing.entries && Admitted(e, env) ==> ChildOf(t, e, env) in Expand(t, env).records
    ensures DistinctNames(t.file.listing.entries) ==> NamesApart(Expand(t, env).records)
  {
    var es := t.file.listing.entries;
    ListingMembers(t, es, env);
    ListingCompletes(t, es, env);
    if DistinctNames(es) {
      ListingNames(t, es, env);
    }
  }

  /**
    Off macOS the package test never raises and always answers "no": every visible
    entry of the scanned directory gets a root record, not a package, and a listing
    completes exactly when it does not raise, with a record, not a package, for
    every visible entry.
  */
  lemma OffMacNothingSkipped(es: seq<FsEntry>, t: FileRecord, env: Env)
    requires !env.platform.isDarwin
    ensures forall e :: e in es && FileVisible(e.name, env.platform) ==>
      RootRecord(e, env) in RootRecords(es, env) && !RootRecord(e, env).package
    ensures Expand(t, env).complete <==> !(t.file.isDir && !t.file.isSymlink) || !t.file.listing.fails
    ensures t.file.isDir && !t.file.isSymlink && !t.file.listing.fails ==>
      forall e :: e in t.file.listing.entries && FileVisible(e.name, env.platform) ==>
        ChildOf(t, e, env) in Expand(t, env).records && !ChildOf(t, e, env).package
  {
    RootRecordsFacts(es, env);
    ExpandFacts(t, env);
  }

  /** Once an iteration has stopped early, later entries add nothing. */
  lemma {:induction false} StoppedStaysStopped(t: FileRecord, es: seq<FsEntry>, n: nat, env: Env)
    requires n <= |es| && !ListingRecords(t, es[..n], env).complete
    ensures ListingRecords(t, es, env) == ListingRecords(t, es[..n], env)
    decreases |es| - n
  {
    if n < |es| {
      assert es[..n + 1][..n] == es[..n];
      StoppedStaysStopped(t, es, n + 1, env);
    } else {
      assert es[..n] == es;
    }
  }

  /** Listing does not read whether the listed directory is a package: a package's contents are queued too. */
  lemma {:induction false} PackagesStillListed(t: FileRecord, es: seq<FsEntry>, env: Env)
    ensures ListingRecords(t.(package := true), es, env) == ListingRecords(t.(package := false), es, env)
  {
    if es != [] {
      PackagesStillListed(t, es[..|es| - 1], env);
    }
  }

  /** The indices `lo`, `lo + 1`, ..., `hi - 1`. */
  function Range(lo: nat, hi: nat): (r: seq<nat>)
    requires lo <= hi
    ensures |r| == hi - lo && forall i :: 0 <= i < |r| ==> r[i] == lo + i
  {
    if lo == hi then [] else Range(lo, hi - 1) + [hi - 1]
  }

  /** Everything the listings of the records `a` append, in the order the queue meets them. */
  function Produced(a: seq<FileRecord>, env: Env): seq<FileRecord>
  {
    if a == [] then [] else Produced(a[..|a| - 1], env) + Expand(a[|a| - 1], env).records
  }

  /**
    The indices of the records of `a` that go into `all_files`: exactly those whose
    listing did not raise, each once, in queue order.
  */
  function Completed(a: seq<FileRecord>, env: Env): (c: seq<nat>)
    ensures forall k :: k in c <==> 0 <= k < |a| && Expand(a[k], env).complete
    ensures forall i, j :: 0 <= i < j < |c| ==> c[i] < c[j]
    ensures forall i :: 0 <= i < |c| ==> c[i] < |a|
  {
    if a == [] then []
    else
      var c := Completed(a[..|a| - 1], env);
      if Expand(a[|a| - 1], env).complete then c + [|a| - 1] else c
  }

  /** The total size of the trees below the entries of `rs`: what the queue still has to list. */
  function Weight(rs: seq<FileRecord>): nat
  {
    if rs == [] then 0 else Weight(rs[..|rs| - 1]) + Size(rs[|rs| - 1].file)
  }

  lemma {:induction false} WeightConcat(a: seq<FileRecord>, b: seq<FileRecord>)
    ensures Weight(a + b) == Weight(a) + Weight(b)
    decreases |b|
  {
    if b != [] {
      assert (a + b)[..|a + b| - 1] == a + b[..|b| - 1];
      WeightConcat(a, b[..|b| - 1]);
    } else {
      assert a + b == a;
    }
  }

  /** What one listing appends weighs at most the entries it came from. */
  lemma {:induction false} ListingWeight(t: FileRecord, es: seq<FsEntry>, env: Env)
    ensures Weight(ListingRecords(t, es, env).records) <= SizeAll(es)
  {
    if es != [] {
      var x := ListingRecords(t, es[..|es| - 1], env);
      ListingWeight(t, es[..|es| - 1], env);
      var e := es[|es| - 1];
      if x.complete && FileVisible(e.name, env.platform) && PackageProbe(e, env.platform).Package? {
        var rs := x.records + [ChildOf(t, e, env)];
        assert rs[..|rs| - 1] == x.records;
      }
    }
  }

  /** Listing a record appends strictly less than the tree below it. */
  lemma ExpandWeight(t: FileRecord, env: Env)
    ensures Weight(Expand(t, env).records) < Size(t.file)
  {
    if t.file.isDir && !t.file.isSymlink {
      ListingWeight(t, t.file.listing.entries, env);
    }
  }

  /**
    A record as the scan makes it: a well-formed entry whose name is a path segment,
    a path that is the scanned directory followed by the record's key without its
    leading ".", the entry's romanized name, no conflict flag, no `children` key, and
    the package flag the probe gave.
  */
  ghost predicate Sound(r: FileRecord, env: Env)
  {
    WellFormed(r.file) && Segment(r.file.name) && |r.parent| > 0 &&
    r.path == env.rootPath + Key(r)[1..] &&
    r.romanizedName == env.romanize(r.file.name) && !r.conflicts && r.children.None? &&
    PackageProbe(r.file, env.platform) == Package(r.package)
  }

  /** Each record of `a` is a root (parent ".") or was listed by one of the first `done` records. */
  ghost predicate Rooted(a: seq<FileRecord>, done: nat)
  {
    forall i :: 0 <= i < |a| ==> a[i].parent == "." || exists p :: 0 <= p < done && p < |a| && a[i].parent == Key(a[p])
  }

  /**
    What holds of the records made so far, the first `done` of them listed already:
    each is sound, no two have the same key, and each is a root or was listed by a
    record already listed.
  */
  ghost predicate Shaped(a: seq<FileRecord>, done: nat, env: Env)
  {
    done <= |a| &&
    (forall i :: 0 <= i < |a| ==> Sound(a[i], env)) &&
    UniqueKeys(a) && Rooted(a, done)
  }

  /** Every record that listing a sound record appends is sound, and its parent is the lister's key. */
  lemma AddedSound(t: FileRecord, env: Env)
    requires Sound(t, env)
    ensures forall x :: x in Expand(t, env).records ==> Sound(x, env) && x.parent == Key(t)
  {
    ExpandFacts(t, env);
    forall x | x in Expand(t, env).records
      ensures Sound(x, env) && x.parent == Key(t)
    {
      var k :| 0 <= k < |t.file.listing.entries| && t.file.listing.entries[k] == x.file;
      assert Key(x)[1..] == Key(t)[1..] + "/" + x.file.name;
    }
  }

  /** Keys stay unique when the listing of record `h` is appended. */
  lemma AddedKeysUnique(a: seq<FileRecord>, h: nat, env: Env)
    requires Shaped(a, h, env) && h < |a|
    ensures UniqueKeys(a + Expand(a[h], env).records)
  {
    var t := a[h];
    var added := Expand(t, env).records;
    var b := a + added;
    assert Sound(t, env);
    AddedSound(t, env);
    ExpandFacts(t, env);
    forall i, j | 0 <= i < j < |b| && |a| <= j
      ensures Key(b[i]) != Key(b[j])
    {
      var y := b[j];
      assert y == added[j - |a|] && y in added;
      if Key(b[i]) == Key(y) {
        if i >= |a| {
          assert b[i] == added[i - |a|] && b[i] in added;
          JoinInjective(b[i].parent, b[i].file.name, y.parent, y.file.name);
          assert false;
        } else {
          assert b[i] == a[i] && Sound(a[i], env);
          JoinInjective(a[i].parent, a[i].file.name, y.parent, y.file.name);
          assert false;
        }
      }
    }
  }

  /** Listing the next record in the queue keeps the records shaped. */
  lemma ExpandShaped(a: seq<FileRecord>, h: nat, env: Env)
    requires Shaped(a, h, env) && h < |a|
    ensures Shaped(a + Expand(a[h], env).records, h + 1, env)
  {
    var t := a[h];
    var added := Expand(t, env).records;
    var b := a + added;
    AddedSound(t, env);
    AddedKeysUnique(a, h, env);
    forall i | 0 <= i < |b|
      ensures Sound(b[i], env)
    {
      if i >= |a| {
        assert b[i] in added;
      }
    }
    forall i | 0 <= i < |b| && b[i].parent != "."
      ensures exists p :: 0 <= p < h + 1 && p < |b| && b[i].parent == Key(b[p])
    {
      if i >= |a| {
        assert b[i] in added;
        assert b[h] == t;
      } else {
        var p :| 0 <= p < h && p < |a| && a[i].parent == Key(a[p]);
        assert b[p] == a[p];
      }
    }
  }

  /** `CollectRoots`: the root loop of `traverse_files`. Iterating the scanned directory raising ends the scan. */
  method CollectRoots(root: Listing, env: Env) returns (roots: Option<seq<FileRecord>>)
    ensures roots.None? <==> root.fails
    ensures roots.Some? ==> roots.value == RootRecords(root.entries, env)
  {
    var rs: seq<FileRecord> := [];
    for i := 0 to |root.entries|
      invariant rs == RootRecords(root.entries[..i], env)
    {
      var e := root.entries[i];
      assert root.entries[..i + 1][..i] == root.entries[..i];
      if !FileVisible(e.name, env.platform) {
        continue;
      }
      var probe := PackageProbe(e, env.platform);
      if probe.ProbeFails? {
        continue;
      }
      rs := rs + [NewRecord(e, Join(env.rootPath, e.name), ".", ".", env.romanize(e.name), probe.isPackage)];
    }
    assert root.entries[..|root.entries|] == root.entries;
    if root.fails {
      return None;
    }
    return Some(rs);
  }

  lemma {:induction false} RootNamesDistinct(es: seq<FsEntry>, env: Env, i: nat, j: nat)
    requires DistinctNames(es)
    requires i < j < |RootRecords(es, env)|
    ensures RootRecords(es, env)[i].file.name != RootRecords(es, env)[j].file.name
  {
    var rs := RootRecords(es, env);
    var prefix := es[..|es| - 1];
    var ps := RootRecords(prefix, env);
    assert DistinctNames(prefix);
    if j < |ps| {
      assert rs[..|ps|] == ps;
      RootNamesDistinct(prefix, env, i, j);
    } else {
      RootRecordsFacts(prefix, env);
      assert rs[j].file == es[|es| - 1];
      assert rs[i] == ps[i] && ps[i] in ps;
      var k :| 0 <= k < |prefix| && prefix[k] == ps[i].file;
    }
  }

  /** Root records made from a well-formed listing are shaped, with none listed yet. */
  lemma RootsShaped(root: Listing, env: Env)
    requires WellFormedListing(root)
    ensures Shaped(RootRecords(root.entries, env), 0, env)
  {
    var rs := RootRecords(root.entries, env);
    RootRecordsFacts(root.entries, env);
    forall i | 0 <= i < |rs|
      ensures Sound(rs[i], env) && rs[i].parent == "."
    {
      assert rs[i] in rs;
      var k :| 0 <= k < |root.entries| && root.entries[k] == rs[i].file;
    }
    forall i, j | 0 <= i < j < |rs|
      ensures Key(rs[i]) != Key(rs[j])
    {
      RootNamesDistinct(root.entries, env, i, j);
      if Key(rs[i]) == Key(rs[j]) {
        JoinInjective(rs[i].parent, rs[i].file.name, rs[j].parent, rs[j].file.name);
      }
    }
  }

  /**
    `ListInto`: one pass of the inner loop of `traverse_files` over the listing of
    record `t`, appending each new dictionary to the arena and its index to the queue.
  */
  method ListInto(arena: seq<FileRecord>, queue: seq<nat>, t: FileRecord, env: Env)
    returns (arena': seq<FileRecord>, queue': seq<nat>, complete: bool)
    ensures arena' == arena + Expand(t, env).records
    ensures queue' == queue + Range(|arena|, |arena'|)
    ensures complete == Expand(t, env).complete
  {
    arena', queue', complete := arena, queue, true;
    if t.file.isDir && !t.file.isSymlink {
      var es := t.file.listing.entries;
      var added: seq<FileRecord> := [];
      var i := 0;
      while i < |es| && complete
        invariant 0 <= i <= |es|
        invariant arena' == arena + added
        invariant ListingRecords(t, es[..i], env) == Expansion(added, complete)
        invariant queue' == queue + Range(|arena|, |arena'|)
      {
        var e := es[i];
        assert es[..i + 1][..i] == es[..i];
        if FileVisible(e.name, env.platform) {
          var probe := PackageProbe(e, env.platform);
          if probe.ProbeFails? {
            complete := false;
          } else {
            var r := NewRecord(e, Join(t.path, e.name), Key(t), t.romanizedParent + "/" + t.romanizedName,
                               env.romanize(e.name), probe.isPackage);
            added := added + [r];
            arena' := arena' + [r];
            queue' := queue' + [|arena'| - 1];
          }
        }
        i := i + 1;
      }
      if complete {
        assert es[..i] == es;
      } else {
        StoppedStaysStopped(t, es, i, env);
      }
      if complete && t.file.listing.fails {
        complete := false;
      }
    }
  }

  /** Appending one listed record extends what the listings produce by its own expansion. */
  lemma ProducedSnoc(listed: seq<FileRecord>, t: FileRecord, env: Env)
    ensures Produced(listed + [t], env) == Produced(listed, env) + Expand(t, env).records
    ensures Completed(listed + [t], env) ==
      Completed(listed, env) + (if Expand(t, env).complete then [|listed|] else [])
  {
    assert (listed + [t])[..|listed|] == listed;
  }

  /** One turn of the queue loop shrinks what is left to list. */
  lemma WeightStep(before: seq<FileRecord>, h: nat, env: Env)
    requires h < |before|
    ensures Weight((before + Expand(before[h], env).records)[h + 1..]) < Weight(before[h..])
  {
    var added := Expand(before[h], env).records;
    ExpandWeight(before[h], env);
    assert before[h..] == [before[h]] + before[h + 1..];
    WeightConcat([before[h]], before[h + 1..]);
    assert (before + added)[h + 1..] == before[h + 1..] + added;
    WeightConcat(before[h + 1..], added);
    assert [before[h]][..0] == [];
  }

  /**
    The state of the queue loop after `h` turns: the records are the roots followed by
    what listing the first `h` of them produced, `all_files` holds those of the first
    `h` whose listing completed, and the records are shaped.
  */
  ghost predicate Draining(roots: seq<FileRecord>, arena: seq<FileRecord>, h: nat, allFiles: seq<nat>, env: Env)
  {
    h <= |arena| &&
    arena == roots + Produced(arena[..h], env) &&
    allFiles == Completed(arena[..h], env) &&
    Shaped(arena, h, env)
  }

  /** One turn of the queue loop keeps the arena equal to the roots and what the listed records produced. */
  lemma ArenaTurn(roots: seq<FileRecord>, arena: seq<FileRecord>, h: nat, env: Env)
    requires h < |arena| && arena == roots + Produced(arena[..h], env)
    ensures var after := arena + Expand(arena[h], env).records;
      after == roots + Produced(after[..h + 1], env)
  {
    var added := Expand(arena[h], env).records;
    var listed := arena[..h];
    PrefixOfLonger(arena, added, h);
    ProducedSnoc(listed, arena[h], env);
    AppendAssociates(roots, Produced(listed, env), added);
  }

  /** Sequence algebra spelled out for the solver; a proof step, not a fact about the program. */
  lemma PrefixOfLonger(s: seq<FileRecord>, u: seq<FileRecord>, h: nat)
    requires h < |s|
    ensures (s + u)[..h + 1] == s[..h] + [s[h]]
  {
  }

  /** Sequence algebra spelled out for the solver; a proof step, not a fact about the program. */
  lemma AppendAssociates(x: seq<FileRecord>, y: seq<FileRecord>, z: seq<FileRecord>)
    ensures x + (y + z) == (x + y) + z
  {
  }

  /** One turn of the queue loop, on the records: list the record at the front. */
  lemma DrainTurn(roots: seq<FileRecord>, arena: seq<FileRecord>, h: nat, allFiles: seq<nat>, env: Env)
    requires Draining(roots, arena, h, allFiles, env) && h < |arena|
    ensures Draining(roots, arena + Expand(arena[h], env).records, h + 1,
                     allFiles + (if Expand(arena[h], env).complete then [h] else []), env)
    ensures Weight((arena + Expand(arena[h], env).records)[h + 1..]) < Weight(arena[h..])
  {
    var after := arena + Expand(arena[h], env).records;
    assert after[..h + 1] == arena[..h] + [arena[h]];
    ProducedSnoc(arena[..h], arena[h], env);
    ArenaTurn(roots, arena, h, env);
    WeightStep(arena, h, env);
    ExpandShaped(arena, h, env);
  }

  /** The queue after a turn: the indices just appended at its back, its front removed. */
  lemma QueueStep(h: nat, m: nat, n: nat)
    requires h < m <= n
    ensures (Range(h, m) + Range(m, n))[1..] == Range(h + 1, n)
  {
  }

  /**
    `Drain`: the breadth-first loop of `traverse_files`. The queue is worked from its
    front, so the records are listed in the order they were made: the final arena is
    the roots followed by everything listing the arena appends, and `all_files` holds
    exactly the records whose listing completed, once each, in queue order.
  */
  method Drain(roots: seq<FileRecord>, env: Env)
    returns (arena: seq<FileRecord>, allFiles: seq<nat>)
    requires Shaped(roots, 0, env)
    ensures arena == roots + Produced(arena, env)
    ensures allFiles == Completed(arena, env)
    ensures Shaped(arena, |arena|, env)
  {
    arena := roots;
    var queue := Range(0, |roots|);
    allFiles := [];
    ghost var h := 0;
    assert roots[..0] == [];
    while |queue| > 0
      invariant Draining(roots, arena, h, allFiles, env)
      invariant queue == Range(h, |arena|)
      decreases Weight(arena[h..])
    {
      var target := queue[0];
      DrainTurn(roots, arena, h, allFiles, env);
      ghost var before := arena;
      var complete;
      arena, queue, complete := ListInto(arena, queue, arena[target], env);
      QueueStep(h, |before|, |arena|);
      if complete {
        allFiles := allFiles + [target];
      }
      queue := queue[1..];
      h := h + 1;
    }
    assert arena[..h] == arena;
  }
}
