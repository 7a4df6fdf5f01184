/**
  `doRename`: walk the children lists the second pass stored, depth first, renaming
  every entry after everything below it, and skipping entries flagged as conflicting.
  The file system is not modelled: the walk yields the log of `os.renames` calls it
  makes, in order, and the reason it stopped early, if it did.
*/
module Rename {
  import opened Wrappers
  import opened Paths
  import opened Records

  /** One `os.renames(old_path, new_path)` call. */
  datatype Rename = Rename(source: string, target: string)

  /**
    Why a walk stops: a record without a `children` key (`KeyError`), or a romanized
    name that `with_name` refuses (`ValueError`).
  */
  datatype Halt = MissingChildren(index: nat) | RefusedName(index: nat)

  /** The renames made, in order, and the reason the walk stopped early, if it did. */
  datatype RenameRun = RenameRun(log: seq<Rename>, halted: Option<Halt>)

  /** The names `PurePath.with_name` rejects with `ValueError`: the empty name and ".". */
  predicate Refused(name: string)
  {
    name == "" || name == "."
  }

  /** Every stored children list names records whose `parent` is longer than their lister's. */
  predicate Nested(a: seq<FileRecord>)
  {
    forall i :: 0 <= i < |a| && a[i].children.Some? ==> Deeper(a, i, a[i].children.value)
  }

  /** `doRename(ids)` on the records `a`. */
  function Walk(a: seq<FileRecord>, ids: seq<nat>): RenameRun
    requires Nested(a) && Indices(a, ids)
    decreases Level(a, ids), |ids|
  {
    if ids == [] then RenameRun([], None)
    else
      var e := ids[0];
      LevelTail(a, ids);
      if a[e].children.None? then RenameRun([], Some(MissingChildren(e)))
      else
        var cs := a[e].children.value;
        LevelDescends(a, ids, e, cs);
        var inner := if |cs| > 0 then Walk(a, cs) else RenameRun([], None);
        if inner.halted.Some? then inner
        else if Refused(a[e].romanizedName) then RenameRun(inner.log, Some(RefusedName(e)))
        else
          var here := if a[e].conflicts then [] else [Rename(a[e].path, WithName(a[e].path, a[e].romanizedName))];
          var rest := Walk(a, ids[1..]);
          RenameRun(inner.log + here + rest.log, rest.halted)
  }

  /** The log of the renames made below record `e` when none of them failed. */
  function Below(a: seq<FileRecord>, e: nat): seq<Rename>
    requires Nested(a) && e < |a| && a[e].children.Some?
  {
    var cs := a[e].children.value;
    if |cs| > 0 then Walk(a, cs).log else []
  }

  /** The rename of record `e` itself: none when it is flagged. */
  function Own(a: seq<FileRecord>, e: nat): seq<Rename>
    requires e < |a|
  {
    if a[e].conflicts then [] else [Rename(a[e].path, WithName(a[e].path, a[e].romanizedName))]
  }

  /** The walk from position `i` of `ids` on, when record `ids[i]` and everything below it is renamed without failure. */
  lemma WalkNext(a: seq<FileRecord>, ids: seq<nat>, i: nat)
    requires Nested(a) && Indices(a, ids) && i < |ids|
    requires a[ids[i]].children.Some? && !Refused(a[ids[i]].romanizedName)
    requires var cs := a[ids[i]].children.value; |cs| > 0 ==> Walk(a, cs).halted.None?
    ensures Indices(a, ids[i..]) && Indices(a, ids[i + 1..])
    ensures Walk(a, ids[i..]) ==
      RenameRun(Below(a, ids[i]) + Own(a, ids[i]) + Walk(a, ids[i + 1..]).log, Walk(a, ids[i + 1..]).halted)
  {
    assert ids[i..][0] == ids[i] && ids[i..][1..] == ids[i + 1..];
  }

  /** Sequence algebra spelled out for the solver; a proof step, not a fact about the program. */
  lemma LogAssociates(x: seq<Rename>, y: seq<Rename>, z: seq<Rename>, w: seq<Rename>)
    ensures x + (y + z + w) == (x + y + z) + w
  {
  }

  /**
    `doRename`: for each record, first the records below it, then its own rename
    unless it is flagged; the first failure ends the whole walk.
  */
  method DoRename(a: seq<FileRecord>, root: seq<nat>) returns (log: seq<Rename>, halted: Option<Halt>)
    requires Nested(a) && Indices(a, root)
    ensures RenameRun(log, halted) == Walk(a, root)
    decreases Level(a, root)
  {
    log := [];
    for i := 0 to |root|
      invariant Indices(a, root[i..])
      invariant Walk(a, root) == RenameRun(log + Walk(a, root[i..]).log, Walk(a, root[i..]).halted)
    {
      var e := root[i];
      assert root[i..][0] == e;
      if a[e].children.None? {
        assert log + [] == log;
        return log, Some(MissingChildren(e));
      }
      var cs := a[e].children.value;
      ghost var prior := log;
      if |cs| > 0 {
        assert e in root;
        LevelDescends(a, root, e, cs);
        var sub, stop := DoRename(a, cs);
        log := log + sub;
        if stop.Some? {
          return log, stop;
        }
      }
      var name := a[e].romanizedName;
      if Refused(name) {
        return log, Some(RefusedName(e));
      }
      if !a[e].conflicts {
        log := log + [Rename(a[e].path, WithName(a[e].path, name))];
      }
      assert log == prior + Below(a, e) + Own(a, e);
      WalkNext(a, root, i);
      LogAssociates(prior, Below(a, e), Own(a, e), Walk(a, root[i + 1..]).log);
    }
    halted := None;
  }
}

/** What a rename walk does: which entries it renames, in which order, and where to. */
module RenameFacts {
  import opened Wrappers
  import opened Paths
  import opened Records
  import opened Rename

  /**
    The records `ids` and everything below them in depth-first post-order: first the
    records below a record, then the record itself, then its later siblings.
  */
  function Post(a: seq<FileRecord>, ids: seq<nat>): (p: seq<nat>)
    requires Nested(a) && Indices(a, ids)
    ensures Indices(a, p)
    decreases Level(a, ids), |ids|
  {
    if ids == [] then []
    else
      var e := ids[0];
      LevelTail(a, ids);
      var cs := if a[e].children.Some? then a[e].children.value else [];
      LevelDescends(a, ids, e, cs);
      Post(a, cs) + [e] + Post(a, ids[1..])
  }

  /** The rename the walk makes for record `n`. */
  function RenameOf(a: seq<FileRecord>, n: nat): Rename
    requires n < |a|
  {
    Rename(a[n].path, WithName(a[n].path, a[n].romanizedName))
  }

  /** The renames of the records `ns` that are not flagged, in the order of `ns`. */
  function Renames(a: seq<FileRecord>, ns: seq<nat>): seq<Rename>
    requires Indices(a, ns)
  {
    if ns == [] then []
    else
      var n := ns[|ns| - 1];
      var log := Renames(a, ns[..|ns| - 1]);
      if a[n].conflicts then log else log + [RenameOf(a, n)]
  }

  lemma {:induction false} RenamesConcat(a: seq<FileRecord>, xs: seq<nat>, ys: seq<nat>)
    requires Indices(a, xs) && Indices(a, ys)
    ensures Indices(a, xs + ys) && Renames(a, xs + ys) == Renames(a, xs) + Renames(a, ys)
    decreases |ys|
  {
    if ys == [] {
      assert xs + ys == xs;
    } else {
      var init := ys[..|ys| - 1];
      assert (xs + ys)[..|xs + ys| - 1] == xs + init;
      RenamesConcat(a, xs, init);
    }
  }

  /** Sequence algebra spelled out for the solver; a proof step of `WalkPrefix`, not a fact about the program. */
  lemma LogAssociates3(x: seq<Rename>, y: seq<Rename>, z: seq<Rename>)
    ensures x + (y + z) == x + y + z
  {
  }

  /** Sequence algebra spelled out for the solver; a proof step, not a fact about the program. */
  lemma PrefixExtend(x: seq<Rename>, y: seq<Rename>, z: seq<Rename>)
    requires x <= y
    ensures x <= y + z
  {
  }

  /** Sequence algebra spelled out for the solver; a proof step, not a fact about the program. */
  lemma PrefixAfter(x: seq<Rename>, y: seq<Rename>, z: seq<Rename>)
    requires y <= z
    ensures x + y <= x + z
  {
  }

  /**
    The walk renames, in order, a prefix of the unflagged records in post-order, and all
    of them when it does not stop early.
  */
  lemma {:induction false} WalkPrefix(a: seq<FileRecord>, ids: seq<nat>)
    requires Nested(a) && Indices(a, ids)
    ensures Walk(a, ids).log <= Renames(a, Post(a, ids))
    ensures Walk(a, ids).halted.None? ==> Walk(a, ids).log == Renames(a, Post(a, ids))
    decreases Level(a, ids), |ids|
  {
    if ids != [] && a[ids[0]].children.Some? {
      var e := ids[0];
      LevelTail(a, ids);
      var cs := a[e].children.value;
      LevelDescends(a, ids, e, cs);
      var pc, pr := Post(a, cs), Post(a, ids[1..]);
      assert Post(a, ids) == pc + [e] + pr;
      RenamesConcat(a, pc, [e]);
      RenamesConcat(a, pc + [e], pr);
      var rc, rr := Renames(a, pc), Renames(a, pr);
      assert Renames(a, [e]) == Own(a, e) by {
        assert [e][..0] == [];
      }
      var whole := rc + Own(a, e) + rr;
      assert Renames(a, Post(a, ids)) == whole;
      var inner := if |cs| > 0 then Walk(a, cs) else RenameRun([], None);
      assert inner.log <= rc && (inner.halted.None? ==> inner.log == rc) by {
        if |cs| > 0 {
          WalkPrefix(a, cs);
        }
      }
      PrefixExtend(inner.log, rc, Own(a, e) + rr);
      LogAssociates3(rc, Own(a, e), rr);
      if inner.halted.None? && !Refused(a[e].romanizedName) {
        var rest := Walk(a, ids[1..]);
        WalkPrefix(a, ids[1..]);
        PrefixAfter(rc + Own(a, e), rest.log, rr);
        assert Walk(a, ids) == RenameRun(rc + Own(a, e) + rest.log, rest.halted);
      }
    }
  }

  /** The records `ids` are entries of directory `dir`, no two with the same name. */
  ghost predicate Family(a: seq<FileRecord>, ids: seq<nat>, dir: string)
    requires Indices(a, ids)
  {
    (forall i :: 0 <= i < |ids| ==> Segment(a[ids[i]].file.name) && a[ids[i]].path == Join(dir, a[ids[i]].file.name)) &&
    (forall i, j :: 0 <= i < j < |ids| ==> a[ids[i]].file.name != a[ids[j]].file.name)
  }

  /** Every stored children list holds entries of its lister's directory, no two with the same name. */
  ghost predicate TreeShaped(a: seq<FileRecord>)
    requires Nested(a)
  {
    forall i :: 0 <= i < |a| && a[i].children.Some? ==> Family(a, a[i].children.value, a[i].path)
  }

  /** No record of `ns` lies at or inside the path of a record that comes later. */
  ghost predicate PathsOrdered(a: seq<FileRecord>, ns: seq<nat>)
    requires Indices(a, ns)
  {
    forall k, l :: 0 <= k < l < |ns| ==> !Under(a[ns[k]].path, a[ns[l]].path)
  }

  /** Every record of `ns` lies at or inside the path of one of the records `ids`. */
  ghost predicate Covered(a: seq<FileRecord>, ns: seq<nat>, ids: seq<nat>)
    requires Indices(a, ns) && Indices(a, ids)
  {
    forall k :: 0 <= k < |ns| ==> exists j :: 0 <= j < |ids| && Under(a[ids[j]].path, a[ns[k]].path)
  }

  lemma OrderedJoin(a: seq<FileRecord>, xs: seq<nat>, ys: seq<nat>)
    requires Indices(a, xs) && Indices(a, ys) && PathsOrdered(a, xs) && PathsOrdered(a, ys)
    requires forall k, l :: 0 <= k < |xs| && 0 <= l < |ys| ==> !Under(a[xs[k]].path, a[ys[l]].path)
    ensures Indices(a, xs + ys) && PathsOrdered(a, xs + ys)
  {
    var zs := xs + ys;
    forall k, l | 0 <= k < l < |zs|
      ensures !Under(a[zs[k]].path, a[zs[l]].path)
    {
      if l < |xs| {
        assert zs[k] == xs[k] && zs[l] == xs[l];
      } else if k < |xs| {
        assert zs[k] == xs[k] && zs[l] == ys[l - |xs|];
      } else {
        assert zs[k] == ys[k - |xs|] && zs[l] == ys[l - |xs|];
      }
    }
  }

  /** What lies inside the children of `e` lies strictly inside `e`. */
  lemma InsideChildren(a: seq<FileRecord>, pc: seq<nat>, cs: seq<nat>, p: string)
    requires Indices(a, pc) && Indices(a, cs) && Family(a, cs, p) && Covered(a, pc, cs)
    ensures forall k :: 0 <= k < |pc| ==> Under(p, a[pc[k]].path) && |a[pc[k]].path| > |p|
  {
    forall k | 0 <= k < |pc|
      ensures Under(p, a[pc[k]].path) && |a[pc[k]].path| > |p|
    {
      var j :| 0 <= j < |cs| && Under(a[cs[j]].path, a[pc[k]].path);
      UnderJoin(p, a[cs[j]].file.name);
      UnderTransitive(p, a[cs[j]].path, a[pc[k]].path);
    }
  }

  /** Every record of `ns` lies at or inside path `p`. */
  ghost predicate Within(a: seq<FileRecord>, ns: seq<nat>, p: string)
    requires Indices(a, ns)
  {
    forall k :: 0 <= k < |ns| ==> Under(p, a[ns[k]].path)
  }

  /** The records below `e` in post-order, then `e`: ordered, and all inside `e`. */
  lemma FrontShape(a: seq<FileRecord>, pc: seq<nat>, e: nat)
    requires Indices(a, pc) && e < |a| && PathsOrdered(a, pc)
    requires forall k :: 0 <= k < |pc| ==> Under(a[e].path, a[pc[k]].path) && |a[pc[k]].path| > |a[e].path|
    ensures Indices(a, pc + [e]) && PathsOrdered(a, pc + [e]) && Within(a, pc + [e], a[e].path)
  {
    OrderedJoin(a, pc, [e]);
    var front := pc + [e];
    assert forall k :: 0 <= k < |pc| ==> front[k] == pc[k];
    assert front[|pc|] == e;
  }

  /** What lies inside the first of a family does not reach into what lies inside the others. */
  lemma SiblingsCross(a: seq<FileRecord>, ids: seq<nat>, dir: string, front: seq<nat>, pr: seq<nat>)
    requires Indices(a, ids) && |ids| > 0 && Family(a, ids, dir)
    requires Indices(a, front) && Within(a, front, a[ids[0]].path)
    requires Indices(a, pr) && Indices(a, ids[1..]) && Covered(a, pr, ids[1..])
    ensures forall k, l :: 0 <= k < |front| && 0 <= l < |pr| ==> !Under(a[front[k]].path, a[pr[l]].path)
  {
    forall k, l | 0 <= k < |front| && 0 <= l < |pr|
      ensures !Under(a[front[k]].path, a[pr[l]].path)
    {
      var j :| 0 <= j < |ids[1..]| && Under(a[ids[1..][j]].path, a[pr[l]].path);
      assert ids[1..][j] == ids[j + 1];
      SiblingsApart(dir, a[ids[0]].file.name, a[ids[j + 1]].file.name, a[front[k]].path, a[pr[l]].path);
    }
  }

  /** Covering by the first record and by the rest gives covering by all of them. */
  lemma CoveredJoin(a: seq<FileRecord>, ids: seq<nat>, front: seq<nat>, pr: seq<nat>)
    requires Indices(a, ids) && |ids| > 0 && Indices(a, ids[1..])
    requires Indices(a, front) && Within(a, front, a[ids[0]].path)
    requires Indices(a, pr) && Covered(a, pr, ids[1..])
    ensures Indices(a, front + pr) && Covered(a, front + pr, ids)
  {
    var all := front + pr;
    forall k | 0 <= k < |all|
      ensures exists j :: 0 <= j < |ids| && Under(a[ids[j]].path, a[all[k]].path)
    {
      if k < |front| {
        assert all[k] == front[k];
        assert Under(a[ids[0]].path, a[all[k]].path);
      } else {
        assert all[k] == pr[k - |front|];
        var j :| 0 <= j < |ids[1..]| && Under(a[ids[1..][j]].path, a[pr[k - |front|]].path);
        assert ids[1..][j] == ids[j + 1];
      }
    }
  }

  lemma FamilyTail(a: seq<FileRecord>, ids: seq<nat>, dir: string)
    requires Indices(a, ids) && |ids| > 0 && Family(a, ids, dir)
    ensures Indices(a, ids[1..]) && Family(a, ids[1..], dir)
  {
    assert forall i :: 0 <= i < |ids| - 1 ==> ids[1..][i] == ids[i + 1];
  }

  /**
    Post-order over entries of one directory with distinct names never lists a path
    before a path inside it, and lists only paths inside those entries.
  */
  lemma {:induction false} PostShape(a: seq<FileRecord>, ids: seq<nat>, dir: string)
    requires Nested(a) && TreeShaped(a) && Indices(a, ids) && Family(a, ids, dir)
    ensures PathsOrdered(a, Post(a, ids)) && Covered(a, Post(a, ids), ids)
    decreases Level(a, ids), |ids|
  {
    if ids != [] {
      var e := ids[0];
      LevelTail(a, ids);
      var cs := if a[e].children.Some? then a[e].children.value else [];
      LevelDescends(a, ids, e, cs);
      var pc, pr := Post(a, cs), Post(a, ids[1..]);
      assert Post(a, ids) == pc + [e] + pr;
      PostShape(a, cs, a[e].path);
      FamilyTail(a, ids, dir);
      PostShape(a, ids[1..], dir);
      InsideChildren(a, pc, cs, a[e].path);
      FrontShape(a, pc, e);
      SiblingsCross(a, ids, dir, pc + [e], pr);
      OrderedJoin(a, pc + [e], pr);
      CoveredJoin(a, ids, pc + [e], pr);
    }
  }

  /** No rename in `log` is of a path at or inside the source of an earlier one. */
  predicate Ordered(log: seq<Rename>)
  {
    forall k, l :: 0 <= k < l < |log| ==> !Under(log[k].source, log[l].source)
  }

  /** Every entry of `Renames(a, ns)` is the rename of an unflagged record of `ns`. */
  lemma {:induction false} RenamesSources(a: seq<FileRecord>, ns: seq<nat>)
    requires Indices(a, ns)
    ensures forall i :: 0 <= i < |Renames(a, ns)| ==>
      exists k :: 0 <= k < |ns| && !a[ns[k]].conflicts && Renames(a, ns)[i] == RenameOf(a, ns[k])
    decreases |ns|
  {
    if ns != [] {
      var init, n := ns[..|ns| - 1], ns[|ns| - 1];
      RenamesSources(a, init);
      var log := Renames(a, init);
      forall i | 0 <= i < |Renames(a, ns)|
        ensures exists k :: 0 <= k < |ns| && !a[ns[k]].conflicts && Renames(a, ns)[i] == RenameOf(a, ns[k])
      {
        if i < |log| {
          var k :| 0 <= k < |init| && !a[init[k]].conflicts && log[i] == RenameOf(a, init[k]);
          assert init[k] == ns[k];
        } else {
          assert !a[n].conflicts && Renames(a, ns) == log + [RenameOf(a, n)];
          assert Renames(a, ns)[i] == RenameOf(a, ns[|ns| - 1]);
        }
      }
    } else {
      assert Renames(a, ns) == [];
    }
  }

  /** Every unflagged record of `ns` has its rename in `Renames(a, ns)`. */
  lemma {:induction false} RenamesComplete(a: seq<FileRecord>, ns: seq<nat>)
    requires Indices(a, ns)
    ensures forall k :: 0 <= k < |ns| && !a[ns[k]].conflicts ==> RenameOf(a, ns[k]) in Renames(a, ns)
    decreases |ns|
  {
    if ns != [] {
      var init := ns[..|ns| - 1];
      RenamesComplete(a, init);
      assert forall k :: 0 <= k < |init| ==> init[k] == ns[k];
    }
  }

  /** Renaming records in an order that respects paths gives an ordered log. */
  lemma {:induction false} RenamesOrdered(a: seq<FileRecord>, ns: seq<nat>)
    requires Indices(a, ns) && PathsOrdered(a, ns)
    ensures Ordered(Renames(a, ns))
    decreases |ns|
  {
    if ns != [] {
      var init, n := ns[..|ns| - 1], ns[|ns| - 1];
      assert forall k :: 0 <= k < |init| ==> init[k] == ns[k];
      RenamesOrdered(a, init);
      RenamesSources(a, init);
      var log := Renames(a, init);
      if !a[n].conflicts {
        var whole := log + [RenameOf(a, n)];
        forall k, l | 0 <= k < l < |whole|
          ensures !Under(whole[k].source, whole[l].source)
        {
          if l == |log| {
            assert k < |log| && whole[k] == log[k];
            var m :| 0 <= m < |init| && !a[init[m]].conflicts && log[k] == RenameOf(a, init[m]);
            assert init[m] == ns[m] && m < |ns| - 1;
          } else {
            assert whole[k] == log[k] && whole[l] == log[l];
          }
        }
      }
    }
  }

  /** A flagged record of `ns` is never the source of a rename, when no two records of `ns` share a path. */
  lemma FlaggedNeverRenamed(a: seq<FileRecord>, ns: seq<nat>, k: nat)
    requires Indices(a, ns) && PathsOrdered(a, ns) && k < |ns| && a[ns[k]].conflicts
    ensures forall r :: r in Renames(a, ns) ==> r.source != a[ns[k]].path
  {
    RenamesSources(a, ns);
    forall r | r in Renames(a, ns)
      ensures r.source != a[ns[k]].path
    {
      var i :| 0 <= i < |Renames(a, ns)| && Renames(a, ns)[i] == r;
      var m :| 0 <= m < |ns| && !a[ns[m]].conflicts && r == RenameOf(a, ns[m]);
      assert m != k;
      assert Under(a[ns[m]].path, a[ns[m]].path);
    }
  }

  /** Every record is an entry named `file.name` in some directory, and its romanized name holds no '/'. */
  ghost predicate Placed(a: seq<FileRecord>)
  {
    forall i :: 0 <= i < |a| ==>
      Segment(a[i].file.name) && '/' !in a[i].romanizedName &&
      a[i].path == Join(DirOf(a[i].path), a[i].file.name)
  }

  /** A rename keeps the entry in its directory and gives it its romanized name. */
  lemma RenameBeside(a: seq<FileRecord>, n: nat)
    requires Placed(a) && n < |a|
    ensures var r := RenameOf(a, n);
      r.target == Join(DirOf(r.source), a[n].romanizedName) && DirOf(r.target) == DirOf(r.source)
  {
    var d := DirOf(a[n].path);
    WithNameJoin(d, a[n].file.name, a[n].romanizedName);
    DirOfJoin(d, a[n].romanizedName);
  }

  /** Sequence algebra spelled out for the solver; a proof step, not a fact about the program. */
  lemma PrefixMembers(x: seq<Rename>, y: seq<Rename>)
    requires x <= y
    ensures forall r :: r in x ==> r in y
  {
  }

  /** Sequence algebra spelled out for the solver; a proof step, not a fact about the program. */
  lemma PrefixAt(x: seq<Rename>, y: seq<Rename>, k: nat)
    requires x <= y && k < |x|
    ensures x[k] == y[k]
  {
  }

  /**
    On a family of entries of one directory with distinct names, `doRename` never
    renames a path after renaming that path or a directory holding it: no entry is
    renamed twice, and no directory is renamed before what lies inside it.
  */
  lemma WalkOrdered(a: seq<FileRecord>, ids: seq<nat>, dir: string)
    requires Nested(a) && TreeShaped(a) && Indices(a, ids) && Family(a, ids, dir)
    ensures Ordered(Walk(a, ids).log)
  {
    var log, full := Walk(a, ids).log, Renames(a, Post(a, ids));
    WalkPrefix(a, ids);
    PostShape(a, ids, dir);
    RenamesOrdered(a, Post(a, ids));
    assert forall k :: 0 <= k < |log| ==> log[k] == full[k];
  }

  /**
    Every rename `doRename` performs is of an unflagged record reached from `ids`, to
    its romanized name in the same directory.
  */
  ghost predicate RenamesReached(a: seq<FileRecord>, ids: seq<nat>)
    requires Nested(a) && Indices(a, ids)
  {
    var log, p := Walk(a, ids).log, Post(a, ids);
    forall k :: 0 <= k < |log| ==>
      (exists m :: 0 <= m < |p| && !a[p[m]].conflicts && log[k] == RenameOf(a, p[m])) &&
      DirOf(log[k].target) == DirOf(log[k].source)
  }

  /** No record reached from `ids` whose name collides with a sibling's is renamed. */
  ghost predicate SkipsFlagged(a: seq<FileRecord>, ids: seq<nat>)
    requires Nested(a) && Indices(a, ids)
  {
    var log, p := Walk(a, ids).log, Post(a, ids);
    forall m :: 0 <= m < |p| && a[p[m]].conflicts ==> forall r :: r in log ==> r.source != a[p[m]].path
  }

  /** A walk that does not stop early renames every unflagged record it reaches. */
  ghost predicate CompleteUnlessHalted(a: seq<FileRecord>, ids: seq<nat>)
    requires Nested(a) && Indices(a, ids)
  {
    var log, p := Walk(a, ids).log, Post(a, ids);
    Walk(a, ids).halted.None? ==> forall m :: 0 <= m < |p| && !a[p[m]].conflicts ==> RenameOf(a, p[m]) in log
  }

  lemma WalkSources(a: seq<FileRecord>, ids: seq<nat>)
    requires Nested(a) && TreeShaped(a) && Placed(a) && Indices(a, ids)
    ensures RenamesReached(a, ids)
  {
    var log, p := Walk(a, ids).log, Post(a, ids);
    var full := Renames(a, p);
    WalkPrefix(a, ids);
    RenamesSources(a, p);
    forall k | 0 <= k < |log|
      ensures (exists m :: 0 <= m < |p| && !a[p[m]].conflicts && log[k] == RenameOf(a, p[m])) &&
        DirOf(log[k].target) == DirOf(log[k].source)
    {
      PrefixAt(log, full, k);
      var m :| 0 <= m < |p| && !a[p[m]].conflicts && full[k] == RenameOf(a, p[m]);
      RenameBeside(a, p[m]);
    }
  }

  lemma WalkSkipsFlagged(a: seq<FileRecord>, ids: seq<nat>, dir: string)
    requires Nested(a) && TreeShaped(a) && Indices(a, ids) && Family(a, ids, dir)
    ensures SkipsFlagged(a, ids)
  {
    var log, p := Walk(a, ids).log, Post(a, ids);
    WalkPrefix(a, ids);
    PostShape(a, ids, dir);
    PrefixMembers(log, Renames(a, p));
    forall m | 0 <= m < |p| && a[p[m]].conflicts
      ensures forall r :: r in log ==> r.source != a[p[m]].path
    {
      FlaggedNeverRenamed(a, p, m);
    }
  }

  lemma WalkComplete(a: seq<FileRecord>, ids: seq<nat>)
    requires Nested(a) && TreeShaped(a) && Indices(a, ids)
    ensures CompleteUnlessHalted(a, ids)
  {
    if Walk(a, ids).halted.None? {
      WalkPrefix(a, ids);
      RenamesComplete(a, Post(a, ids));
    }
  }

  /** What the rename walk from `ids` guarantees. */
  ghost predicate RenamesSafely(a: seq<FileRecord>, ids: seq<nat>)
    requires Nested(a) && Indices(a, ids)
  {
    Ordered(Walk(a, ids).log) && RenamesReached(a, ids) && SkipsFlagged(a, ids) && CompleteUnlessHalted(a, ids)
  }

  /** On a family of entries of one directory with distinct names, the walk renames safely. */
  lemma WalkSafe(a: seq<FileRecord>, ids: seq<nat>, dir: string)
    requires Nested(a) && TreeShaped(a) && Placed(a) && Indices(a, ids) && Family(a, ids, dir)
    ensures RenamesSafely(a, ids)
  {
    WalkOrdered(a, ids, dir);
    WalkSources(a, ids);
    WalkSkipsFlagged(a, ids, dir);
    WalkComplete(a, ids);
  }

  /** No two renames in `log` have the same target. */
  predicate TargetsApart(log: seq<Rename>)
  {
    forall k, l :: 0 <= k < l < |log| ==> log[k].target != log[l].target
  }

  /** No two unflagged members of `ids` share a romanized name. */
  predicate Unclashed(a: seq<FileRecord>, ids: seq<nat>)
    requires Indices(a, ids)
  {
    forall j, l :: 0 <= j < l < |ids| && !a[ids[j]].conflicts && !a[ids[l]].conflicts ==>
      a[ids[j]].romanizedName != a[ids[l]].romanizedName
  }

  /** Every stored children list is unclashed. */
  ghost predicate ClashFree(a: seq<FileRecord>)
    requires Nested(a)
  {
    forall i :: 0 <= i < |a| && a[i].children.Some? ==> Unclashed(a, a[i].children.value)
  }

  /**
    Target `t` belongs to member `n` of directory `dir`: it is the new path of `n`
    itself (then `n` is unflagged), or it lies inside `n`.
  */
  predicate Lands(a: seq<FileRecord>, n: nat, dir: string, t: string)
    requires n < |a|
  {
    (!a[n].conflicts && t == Join(dir, a[n].romanizedName)) || Inside(Join(dir, a[n].file.name), t)
  }

  lemma ApartConcat(x: seq<Rename>, y: seq<Rename>)
    requires TargetsApart(x) && TargetsApart(y)
    requires forall k, l :: 0 <= k < |x| && 0 <= l < |y| ==> x[k].target != y[l].target
    ensures TargetsApart(x + y)
  {
    var z := x + y;
    forall k, l | 0 <= k < l < |z|
      ensures z[k].target != z[l].target
    {
      if l < |x| {
        assert z[k] == x[k] && z[l] == x[l];
      } else if k < |x| {
        assert z[k] == x[k] && z[l] == y[l - |x|];
      } else {
        assert z[k] == y[k - |x|] && z[l] == y[l - |x|];
      }
    }
  }

  /** Targets belonging to two differently named members of one directory differ, unless both are own targets with one name. */
  lemma LandsApart(a: seq<FileRecord>, dir: string, n: nat, m: nat, t: string, u: string)
    requires Placed(a) && n < |a| && m < |a| && a[n].file.name != a[m].file.name
    requires a[n].conflicts || a[m].conflicts || a[n].romanizedName != a[m].romanizedName
    requires Lands(a, n, dir, t) && Lands(a, m, dir, u)
    ensures t != u
  {
    var pn, pm := Join(dir, a[n].file.name), Join(dir, a[m].file.name);
    if Inside(pn, t) && Inside(pm, u) {
      SiblingsApart(dir, a[n].file.name, a[m].file.name, t, u);
    } else if Inside(pn, t) {
      NotInsideSibling(dir, a[n].file.name, a[m].romanizedName);
    } else if Inside(pm, u) {
      NotInsideSibling(dir, a[m].file.name, a[n].romanizedName);
    } else {
      JoinNames(dir, a[n].romanizedName, a[m].romanizedName);
    }
  }

  /** Every target in `log` belongs to member `n` of directory `dir`. */
  ghost predicate BelongTo(a: seq<FileRecord>, n: nat, dir: string, log: seq<Rename>)
    requires n < |a|
  {
    forall k :: 0 <= k < |log| ==> Lands(a, n, dir, log[k].target)
  }

  /** Every target in `log` belongs to some member of `ids` in directory `dir`. */
  ghost predicate BelongAmong(a: seq<FileRecord>, ids: seq<nat>, dir: string, log: seq<Rename>)
    requires Indices(a, ids)
  {
    forall k :: 0 <= k < |log| ==> exists j :: 0 <= j < |ids| && Lands(a, ids[j], dir, log[k].target)
  }

  /** The member of `ids` that target `k` of `log` belongs to. */
  lemma Owner(a: seq<FileRecord>, ids: seq<nat>, dir: string, log: seq<Rename>, k: nat) returns (j: nat)
    requires Indices(a, ids) && BelongAmong(a, ids, dir, log) && k < |log|
    ensures j < |ids| && Lands(a, ids[j], dir, log[k].target)
  {
    var t := log[k].target;
    assert exists i :: 0 <= i < |ids| && Lands(a, ids[i], dir, t);
    var w :| 0 <= w < |ids| && Lands(a, ids[w], dir, t);
    j := w;
  }

  /** Every target in `log` lies strictly inside `p`. */
  predicate AllInside(p: string, log: seq<Rename>)
  {
    forall k :: 0 <= k < |log| ==> Inside(p, log[k].target)
  }

  /** Targets belonging to the children of `e`, an entry of `dir`, lie inside `e` and so belong to it. */
  lemma BelowBelongs(a: seq<FileRecord>, e: nat, dir: string, cs: seq<nat>, below: seq<Rename>)
    requires e < |a| && a[e].path == Join(dir, a[e].file.name)
    requires Indices(a, cs) && BelongAmong(a, cs, a[e].path, below)
    ensures AllInside(a[e].path, below) && BelongTo(a, e, dir, below)
  {
    forall k | 0 <= k < |below|
      ensures Inside(a[e].path, below[k].target)
    {
      var j := Owner(a, cs, a[e].path, below, k);
      InsideJoin(a[e].path, a[cs[j]].romanizedName);
      InsideJoin(a[e].path, a[cs[j]].file.name);
      if Inside(Join(a[e].path, a[cs[j]].file.name), below[k].target) {
        InsideAfter(a[e].path, Join(a[e].path, a[cs[j]].file.name), below[k].target);
      }
    }
  }

  /** Adding the rename of `e` itself after the renames below it keeps the targets apart. */
  lemma OwnTargets(a: seq<FileRecord>, e: nat, dir: string, below: seq<Rename>)
    requires Placed(a) && e < |a| && a[e].path == Join(dir, a[e].file.name)
    requires TargetsApart(below) && AllInside(a[e].path, below) && BelongTo(a, e, dir, below)
    ensures Indices(a, [e])
    ensures TargetsApart(below + Renames(a, [e])) && BelongTo(a, e, dir, below + Renames(a, [e]))
  {
    var own := Renames(a, [e]);
    assert [e][..0] == [] && Renames(a, []) == [];
    if !a[e].conflicts {
      assert own == [RenameOf(a, e)];
      WithNameJoin(dir, a[e].file.name, a[e].romanizedName);
      NotInsideSibling(dir, a[e].file.name, a[e].romanizedName);
    } else {
      assert own == [];
    }
    ApartConcat(below, own);
    var all := below + own;
    forall k | 0 <= k < |all|
      ensures Lands(a, e, dir, all[k].target)
    {
      if k < |below| {
        assert all[k] == below[k];
      }
    }
  }

  /**
    The renames of the first member of a family and of what lies below it all belong to
    that member, no two with one target.
  */
  lemma {:induction false} FrontTargets(a: seq<FileRecord>, ids: seq<nat>, dir: string)
    requires Nested(a) && TreeShaped(a) && Placed(a) && ClashFree(a)
    requires Indices(a, ids) && |ids| > 0 && Family(a, ids, dir)
    ensures var e := ids[0];
      var front := Renames(a, Post(a, if a[e].children.Some? then a[e].children.value else []) + [e]);
      TargetsApart(front) && BelongTo(a, e, dir, front)
    decreases Level(a, ids), 0
  {
    var e := ids[0];
    var cs := if a[e].children.Some? then a[e].children.value else [];
    LevelDescends(a, ids, e, cs);
    var pc := Post(a, cs);
    IndicesFront(a, pc, e);
    RenamesConcat(a, pc, [e]);
    if a[e].children.Some? {
      PostTargets(a, cs, a[e].path);
    } else {
      assert Renames(a, pc) == [];
    }
    BelowBelongs(a, e, dir, cs, Renames(a, pc));
    OwnTargets(a, e, dir, Renames(a, pc));
  }

  /**
    On a family of entries of one directory with distinct names, unclashed, in a tree
    whose every children list is unclashed: the renames of every unflagged record
    reached have pairwise different targets, each belonging to a member of the family.
  */
  lemma {:induction false} PostTargets(a: seq<FileRecord>, ids: seq<nat>, dir: string)
    requires Nested(a) && TreeShaped(a) && Placed(a) && ClashFree(a)
    requires Indices(a, ids) && Family(a, ids, dir) && Unclashed(a, ids)
    ensures TargetsApart(Renames(a, Post(a, ids))) && BelongAmong(a, ids, dir, Renames(a, Post(a, ids)))
    decreases Level(a, ids), |ids| + 1
  {
    if ids == [] {
      assert Renames(a, Post(a, ids)) == [];
    } else {
      var e := ids[0];
      LevelTail(a, ids);
      var cs := if a[e].children.Some? then a[e].children.value else [];
      var pc, pr := Post(a, cs), Post(a, ids[1..]);
      assert Post(a, ids) == (pc + [e]) + pr;
      IndicesFront(a, pc, e);
      RenamesConcat(a, pc + [e], pr);
      FrontTargets(a, ids, dir);
      FamilyTail(a, ids, dir);
      UnclashedTail(a, ids);
      PostTargets(a, ids[1..], dir);
      JoinTargets(a, ids, dir, Renames(a, pc + [e]), Renames(a, pr));
    }
  }

  /** Sequence algebra spelled out for the solver; a proof step, not a fact about the program. */
  lemma IndicesFront(a: seq<FileRecord>, pc: seq<nat>, e: nat)
    requires Indices(a, pc) && e < |a|
    ensures Indices(a, [e]) && Indices(a, pc + [e])
  {
  }

  lemma UnclashedTail(a: seq<FileRecord>, ids: seq<nat>)
    requires Indices(a, ids) && |ids| > 0 && Unclashed(a, ids)
    ensures Indices(a, ids[1..]) && Unclashed(a, ids[1..])
  {
    assert forall j :: 0 <= j < |ids| - 1 ==> ids[1..][j] == ids[j + 1];
  }

  /** The renames belonging to the first member and those belonging to the others keep their targets apart. */
  lemma JoinTargets(a: seq<FileRecord>, ids: seq<nat>, dir: string, front: seq<Rename>, rest: seq<Rename>)
    requires Placed(a) && Indices(a, ids) && |ids| > 0 && Family(a, ids, dir) && Unclashed(a, ids)
    requires TargetsApart(front) && BelongTo(a, ids[0], dir, front)
    requires TargetsApart(rest) && Indices(a, ids[1..]) && BelongAmong(a, ids[1..], dir, rest)
    ensures TargetsApart(front + rest) && BelongAmong(a, ids, dir, front + rest)
  {
    var tail := ids[1..];
    forall k, l | 0 <= k < |front| && 0 <= l < |rest|
      ensures front[k].target != rest[l].target
    {
      var j := Owner(a, tail, dir, rest, l);
      assert tail[j] == ids[j + 1];
      LandsApart(a, dir, ids[0], tail[j], front[k].target, rest[l].target);
    }
    var all := front + rest;
    forall k | 0 <= k < |all|
      ensures exists j :: 0 <= j < |ids| && Lands(a, ids[j], dir, all[k].target)
    {
      if k < |front| {
        assert all[k] == front[k] && Lands(a, ids[0], dir, front[k].target);
      } else {
        var j := Owner(a, tail, dir, rest, k - |front|);
        assert all[k] == rest[k - |front|] && ids[j + 1] == tail[j];
      }
    }
    ApartConcat(front, rest);
  }

  /** With every children list and the roots unclashed, no two renames the walk makes share a target. */
  lemma WalkTargetsApart(a: seq<FileRecord>, ids: seq<nat>, dir: string)
    requires Nested(a) && TreeShaped(a) && Placed(a) && ClashFree(a)
    requires Indices(a, ids) && Family(a, ids, dir) && Unclashed(a, ids)
    ensures TargetsApart(Walk(a, ids).log)
  {
    var log, full := Walk(a, ids).log, Renames(a, Post(a, ids));
    WalkPrefix(a, ids);
    PostTargets(a, ids, dir);
    forall k, l | 0 <= k < l < |log|
      ensures log[k].target != log[l].target
    {
      PrefixAt(log, full, k);
      PrefixAt(log, full, l);
    }
  }
}

