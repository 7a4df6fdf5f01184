/**
  The second pass of `traverse_files`: walk the records of `all_files` depth first
  from the root-level ones, store in each record the list of its children (in
  reverse discovery order, empty for a package), and flag every child whose
  romanized name occurs more than once among its siblings.
*/
module Assemble {
  import opened Wrappers
  import opened Records

  /** The records of `all` whose `parent` is `key`, in the order of `all` (a list comprehension). */
  function Select(a: seq<FileRecord>, all: seq<nat>, key: string): (s: seq<nat>)
    requires Indices(a, all)
    ensures Indices(a, s)
    ensures forall k {:trigger k in s} {:trigger k in all} :: k in s <==> k in all && a[k].parent == key
  {
    if all == [] then []
    else
      assert all == all[..|all| - 1] + [all[|all| - 1]];
      var s := Select(a, all[..|all| - 1], key);
      var k := all[|all| - 1];
      if a[k].parent == key then s + [k] else s
  }

  /** `list(reversed(s))`. */
  function Reverse(s: seq<nat>): (r: seq<nat>)
    ensures |r| == |s| && forall i :: 0 <= i < |s| ==> r[i] == s[|s| - 1 - i]
  {
    seq(|s|, i requires 0 <= i < |s| => s[|s| - 1 - i])
  }

  lemma {:induction false} ReverseReverse(s: seq<nat>)
    ensures Reverse(Reverse(s)) == s
  {
    var r := Reverse(s);
    assert forall i :: 0 <= i < |s| ==> Reverse(r)[i] == r[|s| - 1 - i] == s[i];
  }

  lemma ReverseMembers(s: seq<nat>)
    ensures forall k :: k in Reverse(s) <==> k in s
  {
    forall k | k in s
      ensures k in Reverse(s)
    {
      var i :| 0 <= i < |s| && s[i] == k;
      assert Reverse(s)[|s| - 1 - i] == k;
    }
  }

  lemma ReverseConcat(s: seq<nat>, u: seq<nat>)
    ensures Reverse(s + u) == Reverse(u) + Reverse(s)
  {
    var l, r := Reverse(s + u), Reverse(u) + Reverse(s);
    assert |l| == |r|;
    forall i | 0 <= i < |l|
      ensures l[i] == r[i]
    {
      if i < |u| {
        assert r[i] == Reverse(u)[i];
      } else {
        assert r[i] == Reverse(s)[i - |u|];
      }
    }
  }

  /** The children of record `i` in discovery order: none for a package. */
  function Discovered(a: seq<FileRecord>, all: seq<nat>, i: nat): (cs: seq<nat>)
    requires Indices(a, all) && i < |a|
    ensures Deeper(a, i, cs)
  {
    if a[i].package then [] else Select(a, all, Key(a[i]))
  }

  /** The list the second pass stores under `children` in record `i`. */
  function StoredChildren(a: seq<FileRecord>, all: seq<nat>, i: nat): seq<nat>
    requires Indices(a, all) && i < |a|
  {
    Reverse(Discovered(a, all, i))
  }

  /**
    The depth-first preorder of the records `ids` and, below each, its discovered
    children: the order in which the second pass visits records.
  */
  function Preorder(a: seq<FileRecord>, all: seq<nat>, ids: seq<nat>): (p: seq<nat>)
    requires Indices(a, all) && Indices(a, ids)
    ensures Indices(a, p)
    decreases Level(a, ids), |ids|
  {
    if ids == [] then []
    else
      var e := ids[0];
      var below := Discovered(a, all, e);
      LevelDescends(a, ids, e, below);
      LevelTail(a, ids);
      [e] + Preorder(a, all, below) + Preorder(a, all, ids[1..])
  }

  lemma {:induction false} PreorderConcat(a: seq<FileRecord>, all: seq<nat>, xs: seq<nat>, ys: seq<nat>)
    requires Indices(a, all) && Indices(a, xs) && Indices(a, ys)
    ensures Indices(a, xs + ys)
    ensures Preorder(a, all, xs + ys) == Preorder(a, all, xs) + Preorder(a, all, ys)
    decreases |xs|
  {
    if xs == [] {
      assert xs + ys == ys;
    } else {
      var e, tail := xs[0], xs[1..];
      var below := Discovered(a, all, e);
      assert Indices(a, tail) && Indices(a, tail + ys);
      assert (xs + ys)[0] == e && (xs + ys)[1..] == tail + ys;
      var p, q, r := Preorder(a, all, below), Preorder(a, all, tail), Preorder(a, all, ys);
      assert Preorder(a, all, xs + ys) == [e] + p + Preorder(a, all, tail + ys);
      assert Preorder(a, all, tail + ys) == q + r by {
        PreorderConcat(a, all, tail, ys);
      }
      assert Preorder(a, all, xs) == [e] + p + q;
      assert [e] + p + (q + r) == ([e] + p + q) + r;
    }
  }

  /** Sequence algebra spelled out for the solver; a proof step, not a fact about the program. */
  lemma Associates(x: seq<nat>, y: seq<nat>, z: seq<nat>)
    ensures x + (y + z) == (x + y) + z
  {
  }

  /** Sequence algebra spelled out for the solver; a proof step, not a fact about the program. */
  lemma IndicesSnoc(a: seq<FileRecord>, s: seq<nat>, t: nat)
    requires Indices(a, s) && t < |a|
    ensures Indices(a, s + [t])
  {
  }

  lemma IndicesByMembers(a: seq<FileRecord>, s: seq<nat>, u: seq<nat>)
    requires Indices(a, u) && forall k :: k in s ==> k in u
    ensures Indices(a, s)
  {
    forall i | 0 <= i < |s|
      ensures s[i] < |a|
    {
      assert s[i] in u;
    }
  }

  lemma IndicesAppend(a0: seq<FileRecord>, a: seq<FileRecord>, s: seq<nat>, u: seq<nat>)
    requires |a| == |a0| && Indices(a0, s) && Indices(a0, u)
    ensures Indices(a, s + u)
  {
  }

  /** How many records of `cs` have romanized name `n`. */
  function Count(a: seq<FileRecord>, cs: seq<nat>, n: string): nat
    requires Indices(a, cs)
  {
    if cs == [] then 0
    else
      assert forall k :: k in cs[..|cs| - 1] ==> k in cs;
      Count(a, cs[..|cs| - 1], n) + (if a[cs[|cs| - 1]].romanizedName == n then 1 else 0)
  }

  /** Record `k` of group `g` shares its romanized name with another member. */
  predicate Duplicated(a: seq<FileRecord>, g: seq<nat>, k: nat)
    requires Indices(a, g) && k < |a|
  {
    Count(a, g, a[k].romanizedName) >= 2
  }

  /**
    `FindDuplicates`: the loop over a children list with `children_set` and
    `duplicate_set`; the result holds exactly the names that occur at least twice.
  */
  method FindDuplicates(a: seq<FileRecord>, children: seq<nat>) returns (dups: set<string>)
    requires Indices(a, children)
    ensures forall n :: n in dups <==> Count(a, children, n) >= 2
  {
    var seen: set<string> := {};
    dups := {};
    for i := 0 to |children|
      invariant Indices(a, children[..i])
      invariant forall n :: n in seen <==> Count(a, children[..i], n) >= 1
      invariant forall n :: n in dups <==> Count(a, children[..i], n) >= 2
    {
      assert children[..i + 1][..i] == children[..i];
      assert children[i] in children;
      var name := a[children[i]].romanizedName;
      if name !in seen {
        seen := seen + {name};
      } else {
        dups := dups + {name};
      }
    }
    assert children[..|children|] == children;
  }

  /** `[file for file in children if file['romanized_name'] in duplicate_set]`. */
  function Flagged(a: seq<FileRecord>, cs: seq<nat>, dups: set<string>): (r: seq<nat>)
    requires Indices(a, cs)
    ensures forall k {:trigger k in r} {:trigger k in cs} :: k in r <==> k in cs && a[k].romanizedName in dups
  {
    if cs == [] then []
    else
      assert forall k :: k in cs[..|cs| - 1] ==> k in cs;
      var r := Flagged(a, cs[..|cs| - 1], dups);
      var k := cs[|cs| - 1];
      if a[k].romanizedName in dups then r + [k] else r
  }

  /** `b` is `a` with the conflict flag set on the records `ks` and nothing else changed. */
  predicate Marked(a: seq<FileRecord>, ks: seq<nat>, b: seq<FileRecord>)
  {
    |b| == |a| && forall i :: 0 <= i < |a| ==> b[i] == a[i].(conflicts := a[i].conflicts || i in ks)
  }

  /** `MarkConflicts`: `for file in conflicts: file['conflicts'] = True`. */
  method MarkConflicts(a: seq<FileRecord>, ks: seq<nat>) returns (b: seq<FileRecord>)
    requires Indices(a, ks)
    ensures Marked(a, ks, b)
  {
    b := a;
    for j := 0 to |ks|
      invariant |b| == |a|
      invariant forall i :: 0 <= i < |a| ==> b[i] == a[i].(conflicts := a[i].conflicts || i in ks[..j])
    {
      assert ks[j] in ks;
      assert forall i :: i in ks[..j + 1] <==> i in ks[..j] || i == ks[j];
      b := b[ks[j] := b[ks[j]].(conflicts := true)];
    }
    assert ks[..|ks|] == ks;
  }

  /** Record `k` is among the stored children of `v` and shares its romanized name with another of them. */
  predicate DuplicateChild(a: seq<FileRecord>, all: seq<nat>, v: nat, k: nat)
    requires Indices(a, all) && v < |a| && k < |a|
  {
    var g := StoredChildren(a, all, v);
    k in g && Duplicated(a, g, k)
  }

  /** Record `k` is a duplicated child of some visited record. */
  ghost predicate InConflict(a: seq<FileRecord>, all: seq<nat>, visited: seq<nat>, k: nat)
    requires Indices(a, all) && Indices(a, visited) && k < |a|
  {
    exists j :: 0 <= j < |visited| && DuplicateChild(a, all, visited[j], k)
  }

  /**
    The records after the second pass, from the records `a0` before it: each visited
    record has its stored children; a record's conflict flag is set when it was set
    before or the record is a duplicated child of a visited record; nothing else changes.
  */
  ghost predicate Assembled(a0: seq<FileRecord>, all: seq<nat>, visited: seq<nat>, a: seq<FileRecord>)
    requires Indices(a0, all) && Indices(a0, visited)
  {
    |a| == |a0| &&
    forall i :: 0 <= i < |a0| ==>
      a[i] == a0[i].(children := if i in visited then Some(StoredChildren(a0, all, i)) else a0[i].children,
                     conflicts := a0[i].conflicts || InConflict(a0, all, visited, i))
  }

  /** The depth-first order after taking the top of the stack and pushing its children. */
  lemma StackStep(a: seq<FileRecord>, all: seq<nat>, rest: seq<nat>, t: nat)
    requires Indices(a, all) && Indices(a, rest) && t < |a|
    ensures Indices(a, rest + [t]) && Indices(a, rest + StoredChildren(a, all, t))
    ensures Preorder(a, all, Reverse(rest + [t])) ==
      [t] + Preorder(a, all, Reverse(rest + StoredChildren(a, all, t)))
  {
    var below := Discovered(a, all, t);
    var r := Reverse(rest);
    assert Reverse(rest + [t]) == [t] + r by {
      ReverseConcat(rest, [t]);
    }
    assert Reverse(rest + Reverse(below)) == below + r by {
      ReverseConcat(rest, Reverse(below));
      ReverseReverse(below);
    }
    assert Indices(a, r) by {
      ReverseMembers(rest);
    }
    assert Preorder(a, all, [t] + r) == [t] + Preorder(a, all, below) + Preorder(a, all, r) by {
      assert ([t] + r)[0] == t && ([t] + r)[1..] == r;
    }
    var x, y := Preorder(a, all, below), Preorder(a, all, r);
    assert Preorder(a, all, below + r) == x + y by {
      PreorderConcat(a, all, below, r);
    }
    assert [t] + x + y == [t] + (x + y);
  }

  /** `a` differs from `a0` at most in the `children` and `conflicts` of its records. */
  ghost predicate SameEntries(a0: seq<FileRecord>, a: seq<FileRecord>)
  {
    |a| == |a0| &&
    forall i :: 0 <= i < |a0| ==>
      a[i].file == a0[i].file && a[i].path == a0[i].path &&
      a[i].parent == a0[i].parent && a[i].romanizedParent == a0[i].romanizedParent &&
      a[i].package == a0[i].package && a[i].romanizedName == a0[i].romanizedName
  }

  lemma {:induction false} SelectFrame(a0: seq<FileRecord>, a: seq<FileRecord>, all: seq<nat>, key: string)
    requires SameEntries(a0, a) && Indices(a0, all)
    ensures Select(a, all, key) == Select(a0, all, key)
    decreases |all|
  {
    if all != [] {
      assert forall k :: k in all[..|all| - 1] ==> k in all;
      SelectFrame(a0, a, all[..|all| - 1], key);
    }
  }

  lemma {:induction false} CountFrame(a0: seq<FileRecord>, a: seq<FileRecord>, cs: seq<nat>, n: string)
    requires SameEntries(a0, a) && Indices(a0, cs)
    ensures Count(a, cs, n) == Count(a0, cs, n)
    decreases |cs|
  {
    if cs != [] {
      assert forall k :: k in cs[..|cs| - 1] ==> k in cs;
      CountFrame(a0, a, cs[..|cs| - 1], n);
    }
  }

  lemma {:induction false} FlaggedFrame(a0: seq<FileRecord>, a: seq<FileRecord>, cs: seq<nat>, dups: set<string>)
    requires SameEntries(a0, a) && Indices(a0, cs)
    ensures Flagged(a, cs, dups) == Flagged(a0, cs, dups)
    decreases |cs|
  {
    if cs != [] {
      FlaggedFrame(a0, a, cs[..|cs| - 1], dups);
    }
  }

  /** Visiting `t` adds exactly the duplicated children of `t` to the conflicting records. */
  lemma ConflictStep(a: seq<FileRecord>, all: seq<nat>, visited: seq<nat>, t: nat, k: nat)
    requires Indices(a, all) && Indices(a, visited) && t < |a| && k < |a|
    ensures Indices(a, visited + [t])
    ensures InConflict(a, all, visited + [t], k) <==>
      InConflict(a, all, visited, k) || DuplicateChild(a, all, t, k)
  {
    var w := visited + [t];
    assert forall j :: 0 <= j < |visited| ==> w[j] == visited[j];
    assert w[|visited|] == t;
  }

  /** The stack still to be popped, with the records already visited, covers the whole depth-first order. */
  ghost predicate Pending(a0: seq<FileRecord>, all: seq<nat>, stack: seq<nat>, visited: seq<nat>)
    requires Indices(a0, all)
  {
    Indices(a0, stack) && Indices(a0, visited) &&
    visited + Preorder(a0, all, Reverse(stack)) == Preorder(a0, all, Select(a0, all, "."))
  }

  /** The list `conflicts` holds exactly the duplicated children of the visited records. */
  ghost predicate Flags(a0: seq<FileRecord>, all: seq<nat>, visited: seq<nat>, conflicts: seq<nat>)
    requires Indices(a0, all) && Indices(a0, visited)
  {
    Indices(a0, conflicts) &&
    forall k :: 0 <= k < |a0| ==> (k in conflicts <==> InConflict(a0, all, visited, k))
  }

  /** The records hold the children of the visited records and the flags of the records in `conflicts`. */
  ghost predicate Recorded(a0: seq<FileRecord>, all: seq<nat>, visited: seq<nat>, conflicts: seq<nat>, a: seq<FileRecord>)
    requires Indices(a0, all)
  {
    SameEntries(a0, a) &&
    forall i :: 0 <= i < |a0| ==>
      a[i].children == (if i in visited then Some(StoredChildren(a0, all, i)) else a0[i].children) &&
      a[i].conflicts == (a0[i].conflicts || i in conflicts)
  }

  lemma PendingTurn(a0: seq<FileRecord>, all: seq<nat>, rest: seq<nat>, t: nat, visited: seq<nat>)
    requires Indices(a0, all) && Pending(a0, all, rest + [t], visited)
    ensures t < |a0| && |visited| < |Preorder(a0, all, Select(a0, all, "."))|
    ensures Pending(a0, all, rest + StoredChildren(a0, all, t), visited + [t])
  {
    var stack := rest + [t];
    assert t < |a0| && Indices(a0, rest) by {
      assert stack[|rest|] == t;
      assert forall i :: 0 <= i < |rest| ==> rest[i] == stack[i];
    }
    StackStep(a0, all, rest, t);
    var tail := Preorder(a0, all, Reverse(rest + StoredChildren(a0, all, t)));
    Associates(visited, [t], tail);
    IndicesSnoc(a0, visited, t);
  }

  lemma RecordVisit(a0: seq<FileRecord>, all: seq<nat>, visited: seq<nat>, conflicts: seq<nat>, a: seq<FileRecord>, t: nat)
    requires Indices(a0, all) && Recorded(a0, all, visited, conflicts, a) && t < |a0|
    ensures Recorded(a0, all, visited + [t], conflicts, a[t := a[t].(children := Some(StoredChildren(a0, all, t)))])
  {
    assert forall i :: i in visited + [t] <==> i in visited || i == t;
  }

  lemma RecordMarks(a0: seq<FileRecord>, all: seq<nat>, visited: seq<nat>, conflicts: seq<nat>, more: seq<nat>,
                    a: seq<FileRecord>, b: seq<FileRecord>)
    requires Indices(a0, all) && Recorded(a0, all, visited, conflicts, a) && Marked(a, conflicts + more, b)
    ensures Recorded(a0, all, visited, conflicts + more, b)
  {
    assert forall i :: i in conflicts + more <==> i in conflicts || i in more;
  }

  /** The records the loop adds to `conflicts` on visiting `t` are exactly the duplicated children of `t`. */
  lemma FlagsTurn(a0: seq<FileRecord>, all: seq<nat>, visited: seq<nat>, conflicts: seq<nat>, t: nat, more: seq<nat>)
    requires Indices(a0, all) && Indices(a0, visited) && Flags(a0, all, visited, conflicts) && t < |a0|
    requires Indices(a0, more) && forall k :: 0 <= k < |a0| ==> (k in more <==> DuplicateChild(a0, all, t, k))
    ensures Indices(a0, visited + [t]) && Flags(a0, all, visited + [t], conflicts + more)
  {
    forall k | 0 <= k < |a0|
      ensures k in conflicts + more <==> InConflict(a0, all, visited + [t], k)
    {
      ConflictStep(a0, all, visited, t, k);
    }
  }

  /** The duplicate names found among the children of `t` select exactly its duplicated children. */
  lemma DuplicatesFlagged(a0: seq<FileRecord>, all: seq<nat>, t: nat, children: seq<nat>, dups: set<string>, more: seq<nat>)
    requires Indices(a0, all) && t < |a0| && children == StoredChildren(a0, all, t)
    requires forall n :: n in dups <==> Count(a0, children, n) >= 2
    requires more == if |dups| > 0 then Flagged(a0, children, dups) else []
    ensures Indices(a0, more)
    ensures forall k :: 0 <= k < |a0| ==> (k in more <==> DuplicateChild(a0, all, t, k))
  {
    var d := Discovered(a0, all, t);
    ReverseMembers(d);
    IndicesByMembers(a0, children, d);
    if |dups| > 0 {
      IndicesByMembers(a0, more, children);
    }
    forall k | 0 <= k < |a0|
      ensures k in more <==> DuplicateChild(a0, all, t, k)
    {
      if DuplicateChild(a0, all, t, k) {
        assert a0[k].romanizedName in dups;
      }
    }
  }

  /** What the loop computes as the children of `t` is what the second pass stores. */
  lemma ChildrenFrame(a0: seq<FileRecord>, a: seq<FileRecord>, all: seq<nat>, t: nat)
    requires SameEntries(a0, a) && Indices(a0, all) && t < |a0|
    ensures Indices(a, all)
    ensures (if a[t].package then [] else Reverse(Select(a, all, Key(a[t])))) == StoredChildren(a0, all, t)
  {
    SelectFrame(a0, a, all, Key(a0[t]));
  }

  /** Before the first turn: the stack holds the root-level records, nothing is visited or flagged. */
  lemma Started(a0: seq<FileRecord>, all: seq<nat>)
    requires Indices(a0, all)
    ensures Pending(a0, all, Reverse(Select(a0, all, ".")), [])
    ensures Flags(a0, all, [], []) && Recorded(a0, all, [], [], a0)
  {
    var roots := Select(a0, all, ".");
    ReverseReverse(roots);
    ReverseMembers(roots);
    IndicesByMembers(a0, Reverse(roots), roots);
  }

  /** Once the stack is empty, the visit order is the whole depth-first order and the records are the assembled ones. */
  lemma Finished(a0: seq<FileRecord>, all: seq<nat>, visited: seq<nat>, conflicts: seq<nat>, a: seq<FileRecord>)
    requires Indices(a0, all) && Pending(a0, all, [], visited)
    requires Flags(a0, all, visited, conflicts) && Recorded(a0, all, visited, conflicts, a)
    ensures Indices(a0, visited) && visited == Preorder(a0, all, Select(a0, all, "."))
    ensures Assembled(a0, all, visited, a)
  {
    assert Reverse([]) == [];
  }

  /**
    The duplicate search after the children of `t` are stored: the children whose
    romanized name occurs twice among them are added to `conflicts`, and every record
    in `conflicts` gets its flag set.
  */
  method FlagDuplicates(a0: seq<FileRecord>, all: seq<nat>, ghost visited: seq<nat>, ghost t: nat,
                        children: seq<nat>, a: seq<FileRecord>, conflicts: seq<nat>)
    returns (b: seq<FileRecord>, conflicts': seq<nat>)
    requires Indices(a0, all) && t < |a0| && children == StoredChildren(a0, all, t)
    requires Indices(a0, visited) && Flags(a0, all, visited, conflicts)
    requires Recorded(a0, all, visited + [t], conflicts, a)
    ensures Indices(a0, visited + [t])
    ensures Flags(a0, all, visited + [t], conflicts') && Recorded(a0, all, visited + [t], conflicts', b)
  {
    IndicesSnoc(a0, visited, t);
    assert SameEntries(a0, a);
    var dups := FindDuplicates(a, children);
    forall n
      ensures Count(a, children, n) == Count(a0, children, n)
    {
      CountFrame(a0, a, children, n);
    }
    ghost var more := if |dups| > 0 then Flagged(a0, children, dups) else [];
    DuplicatesFlagged(a0, all, t, children, dups, more);
    b, conflicts' := a, conflicts;
    if |dups| > 0 {
      FlaggedFrame(a0, a, children, dups);
      IndicesAppend(a0, a, conflicts, more);
      conflicts' := conflicts + Flagged(a, children, dups);
      b := MarkConflicts(a, conflicts');
      RecordMarks(a0, all, visited + [t], conflicts, more, a, b);
    } else {
      assert conflicts' == conflicts + more;
    }
    FlagsTurn(a0, all, visited, conflicts, t, more);
  }

  /**
    One turn of the stack loop: pop the last record, store its children (none for a
    package), push them, and flag duplicated names among them.
  */
  method Visit(a0: seq<FileRecord>, all: seq<nat>, a: seq<FileRecord>, stack: seq<nat>, ghost visited: seq<nat>,
               conflicts: seq<nat>)
    returns (b: seq<FileRecord>, stack': seq<nat>, conflicts': seq<nat>, target: nat)
    requires Indices(a0, all) && |stack| > 0
    requires Pending(a0, all, stack, visited) && Flags(a0, all, visited, conflicts)
    requires Recorded(a0, all, visited, conflicts, a)
    ensures target == stack[|stack| - 1] && |visited| < |Preorder(a0, all, Select(a0, all, "."))|
    ensures Pending(a0, all, stack', visited + [target])
    ensures Flags(a0, all, visited + [target], conflicts')
    ensures Recorded(a0, all, visited + [target], conflicts', b)
  {
    target := stack[|stack| - 1];
    var rest := stack[..|stack| - 1];
    assert stack == rest + [target];
    PendingTurn(a0, all, rest, target, visited);
    ChildrenFrame(a0, a, all, target);
    var children: seq<nat>;
    if a[target].package {
      children := [];
    } else {
      children := Reverse(Select(a, all, Key(a[target])));
    }
    RecordVisit(a0, all, visited, conflicts, a, target);
    b := a[target := a[target].(children := Some(children))];
    stack' := rest + children;
    b, conflicts' := FlagDuplicates(a0, all, visited, target, children, b, conflicts);
  }

  /**
    `AssembleTree`: the stack loop of `traverse_files`. Records are visited in depth-first
    preorder of discovery from the root-level records of `all_files`; each gets its
    `children` list, and duplicated romanized names among the children are flagged.
  */
  method AssembleTree(a0: seq<FileRecord>, all: seq<nat>) returns (a: seq<FileRecord>, ghost visited: seq<nat>)
    requires Indices(a0, all)
    ensures Indices(a0, visited)
    ensures visited == Preorder(a0, all, Select(a0, all, "."))
    ensures Assembled(a0, all, visited, a)
  {
    a := a0;
    var stack := Reverse(Select(a, all, "."));
    Started(a0, all);
    var conflicts: seq<nat> := [];
    visited := [];
    while |stack| > 0
      invariant Pending(a0, all, stack, visited)
      invariant Flags(a0, all, visited, conflicts)
      invariant Recorded(a0, all, visited, conflicts, a)
      decreases |Preorder(a0, all, Select(a0, all, "."))| - |visited|
    {
      var target;
      a, stack, conflicts, target := Visit(a0, all, a, stack, visited, conflicts);
      visited := visited + [target];
    }
    Finished(a0, all, visited, conflicts, a);
  }
}

/** What the second pass promises about the records it leaves behind. */
module AssembleFacts {
  import opened Wrappers
  import opened Paths
  import opened Records
  import opened Assemble

  /** The stored children of `v` are records of `all_files` whose `parent` is the key of `v`. */
  lemma StoredChildOf(a: seq<FileRecord>, all: seq<nat>, v: nat)
    requires Indices(a, all) && v < |a|
    ensures forall k :: k in StoredChildren(a, all, v) ==> k < |a| && k in all && a[k].parent == Key(a[v])
    ensures a[v].package ==> StoredChildren(a, all, v) == []
  {
    ReverseMembers(Discovered(a, all, v));
  }

  /** A key always holds a '/', so it is never the root marker ".". */
  lemma KeyNotRoot(r: FileRecord)
    ensures '/' in Key(r) && Key(r) != "."
  {
    assert Key(r)[|r.parent|] == '/';
  }

  /**
    Among the children of a visited record, exactly those whose romanized name occurs
    at least twice in that children list end up flagged (besides any flag set before).
  */
  lemma ConflictsExact(a0: seq<FileRecord>, all: seq<nat>, visited: seq<nat>, a: seq<FileRecord>, v: nat, k: nat)
    requires Indices(a0, all) && Indices(a0, visited) && UniqueKeys(a0)
    requires Assembled(a0, all, visited, a)
    requires v in visited && k in StoredChildren(a0, all, v)
    ensures k < |a0|
    ensures a[k].conflicts <==> a0[k].conflicts || Duplicated(a0, StoredChildren(a0, all, v), k)
  {
    var j :| 0 <= j < |visited| && visited[j] == v;
    StoredChildOf(a0, all, v);
    if InConflict(a0, all, visited, k) {
      var i :| 0 <= i < |visited| && DuplicateChild(a0, all, visited[i], k);
      StoredChildOf(a0, all, visited[i]);
      assert visited[i] == v;
    } else {
      assert !DuplicateChild(a0, all, visited[j], k);
    }
  }

  lemma {:induction false} CountPrefix(a: seq<FileRecord>, cs: seq<nat>, n: string, m: nat)
    requires Indices(a, cs) && m <= |cs|
    ensures Indices(a, cs[..m]) && Count(a, cs[..m], n) <= Count(a, cs, n)
    decreases |cs|
  {
    if m < |cs| {
      var init := cs[..|cs| - 1];
      assert init[..m] == cs[..m];
      CountPrefix(a, init, n, m);
    } else {
      assert cs[..m] == cs;
    }
  }

  /** Two positions of a group holding the same romanized name make that name duplicated there. */
  lemma CountTwice(a: seq<FileRecord>, cs: seq<nat>, j: nat, l: nat)
    requires Indices(a, cs) && j < l < |cs| && a[cs[j]].romanizedName == a[cs[l]].romanizedName
    ensures Count(a, cs, a[cs[j]].romanizedName) >= 2
  {
    var n := a[cs[j]].romanizedName;
    CountPrefix(a, cs, n, j);
    CountPrefix(a, cs, n, j + 1);
    CountPrefix(a, cs, n, l);
    CountPrefix(a, cs, n, l + 1);
    assert cs[..j + 1][..j] == cs[..j] && cs[..l + 1][..l] == cs[..l];
    CountPrefix(a, cs[..l], n, j + 1);
    assert cs[..l][..j + 1] == cs[..j + 1];
  }

  /** A root-level record (parent ".") is never anyone's child, so the second pass never flags it. */
  lemma RootsNeverFlagged(a0: seq<FileRecord>, all: seq<nat>, visited: seq<nat>, a: seq<FileRecord>, k: nat)
    requires Indices(a0, all) && Indices(a0, visited) && Assembled(a0, all, visited, a)
    requires k < |a0| && a0[k].parent == "."
    ensures a[k].conflicts == a0[k].conflicts
  {
    forall i | 0 <= i < |visited|
      ensures !DuplicateChild(a0, all, visited[i], k)
    {
      StoredChildOf(a0, all, visited[i]);
      KeyNotRoot(a0[visited[i]]);
    }
  }

  /** A visited package gets an empty children list; every other visited record gets its children, newest first. */
  lemma StoredLists(a0: seq<FileRecord>, all: seq<nat>, visited: seq<nat>, a: seq<FileRecord>, v: nat)
    requires Indices(a0, all) && Indices(a0, visited) && Assembled(a0, all, visited, a)
    requires v in visited
    ensures v < |a0| && a[v].children.Some?
    ensures a0[v].package ==> a[v].children.value == []
    ensures !a0[v].package ==> forall k :: k in a[v].children.value <==> k in all && a0[k].parent == Key(a0[v])
    ensures !a0[v].package ==> a[v].children.value == Reverse(Select(a0, all, Key(a0[v])))
  {
    var j :| 0 <= j < |visited| && visited[j] == v;
    ReverseMembers(Select(a0, all, Key(a0[v])));
  }
}
