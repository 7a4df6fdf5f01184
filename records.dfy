/**
  The per-entry dictionary the scanner builds. Python shares these dictionaries
  between `root_files`, the queue, `all_files` and every `children` list, and later
  writes into them; the model keeps them in one sequence (the arena) and every
  list holds indices into it, so a write through one list is seen by all others.
*/
module Records {
  import opened Wrappers
  import opened Paths
  import opened FileSystem

  /**
    One entry dictionary. `path` is the entry's `path` as the listing reports it;
    `children` is `None` while the key has never been set.
  */
  datatype FileRecord = FileRecord(
    file: FsEntry,
    path: string,
    parent: string,
    romanizedParent: string,
    romanizedName: string,
    conflicts: bool,
    package: bool,
    children: Option<seq<nat>>)

  /** The string the second pass compares children's `parent` against: parent, '/', name. */
  function Key(r: FileRecord): string
  {
    Join(r.parent, r.file.name)
  }

  /** No two records of `a` have the same key. */
  ghost predicate UniqueKeys(a: seq<FileRecord>)
  {
    forall i, j :: 0 <= i < j < |a| ==> Key(a[i]) != Key(a[j])
  }

  /** Every index in `ids` names a record of `a`. */
  predicate Indices(a: seq<FileRecord>, ids: seq<nat>)
  {
    forall i :: 0 <= i < |ids| ==> ids[i] < |a|
  }

  /** The longest `parent` string in the arena. */
  function MaxParentLen(a: seq<FileRecord>): (m: nat)
    ensures forall i :: 0 <= i < |a| ==> |a[i].parent| <= m
  {
    if a == [] then 0
    else
      var m := MaxParentLen(a[..|a| - 1]);
      var here := |a[|a| - 1].parent|;
      if m < here then here else m
  }

  /** The shortest `parent` string among the records `ids`. */
  function MinParentLen(a: seq<FileRecord>, ids: seq<nat>): (m: nat)
    requires ids != [] && Indices(a, ids)
    ensures forall k {:trigger k in ids} :: k in ids ==> m <= |a[k].parent|
    ensures exists k :: k in ids && m == |a[k].parent|
    ensures m <= MaxParentLen(a)
  {
    assert ids[0] in ids;
    var here := |a[ids[0]].parent|;
    if |ids| == 1 then here
    else
      assert ids == [ids[0]] + ids[1..];
      var rest := MinParentLen(a, ids[1..]);
      if rest < here then rest else here
  }

  /**
    How many more levels a walk starting at the records `ids` can descend: every
    step down lengthens `parent`, which no record's `parent` outgrows.
  */
  function Level(a: seq<FileRecord>, ids: seq<nat>): nat
    requires Indices(a, ids)
  {
    if ids == [] then 0 else MaxParentLen(a) + 1 - MinParentLen(a, ids)
  }

  /** The records `cs` all have a longer `parent` than record `e`. */
  predicate Deeper(a: seq<FileRecord>, e: nat, cs: seq<nat>)
    requires e < |a|
  {
    Indices(a, cs) && forall c {:trigger c in cs} :: c in cs ==> |a[c].parent| > |a[e].parent|
  }

  lemma LevelTail(a: seq<FileRecord>, ids: seq<nat>)
    requires ids != [] && Indices(a, ids)
    ensures Indices(a, ids[1..]) && Level(a, ids[1..]) <= Level(a, ids)
  {
    assert forall k :: k in ids[1..] ==> k in ids;
  }

  lemma LevelDescends(a: seq<FileRecord>, ids: seq<nat>, e: nat, cs: seq<nat>)
    requires Indices(a, ids) && e in ids && Deeper(a, e, cs)
    ensures Level(a, cs) < Level(a, ids)
  {
    if cs != [] {
      var m := MinParentLen(a, cs);
      var c :| c in cs && m == |a[c].parent|;
    }
  }
}
