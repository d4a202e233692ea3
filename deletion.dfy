/** What onFileDelete does to the outline and the index, stated against
    the tree and the selection it started from. */
module Deletion {
  import opened Index
  import opened Tree
  import opened Selection
  import opened DeletePlan
  import opened Pruning

  /** Every listed path names an item below the invisible root. */
  predicate AllValid(T: Node, items: seq<seq<nat>>)
  {
    forall j :: 0 <= j < |items| ==> items[j] != [] && ValidPath(T, items[j])
  }

  /** No selected item lies below a selected file item.  Deleting such a
      file frees its item with the items below it when it is at the top
      level, and otherwise removes its index node, so the loop would later
      reach the item below it through a stale pointer. */
  ghost predicate NoneBelowSelectedFile(T: Node)
  {
    forall p, q :: SelectedAt(T, p) && SelectedAt(T, q) && IsPrefix(p, q) && p != q ==>
      At(T, p).item.entry.kind != File
  }

  /** Which of the items are FILE items. */
  function FileFlags(T: Node, items: seq<seq<nat>>): (f: seq<bool>)
    requires AllValid(T, items)
    ensures |f| == |items|
    ensures forall j :: 0 <= j < |items| ==> (f[j] <==> At(T, items[j]).item.entry.kind == File)
  {
    seq(|items|, j requires 0 <= j < |items| => At(T, items[j]).item.entry.kind == File)
  }

  /** The (original) paths of the items the steps delete. */
  function DeletedSet(items: seq<seq<nat>>, steps: seq<Step>): set<seq<nat>>
    requires |steps| <= |items|
  {
    if steps == [] then {}
    else DeletedSet(items, steps[..|steps| - 1])
         + (if steps[|steps| - 1].delete then {items[|steps| - 1]} else {})
  }

  /** The index once the parent index node of every deleted item has lost
      the child with the item's entry, in order. */
  function IndexAfter(T: Node, idx: FileIndex, items: seq<seq<nat>>, steps: seq<Step>): FileIndex
    requires AllValid(T, items) && |steps| <= |items|
  {
    if steps == [] then idx
    else
      var n := |steps| - 1;
      var prev := IndexAfter(T, idx, items, steps[..n]);
      if steps[n].delete then
        var c := Chain(T, items[n]);
        EditAt(prev, c[..|c| - 1], RemoveChild(c[|c| - 1]))
      else prev
  }

  /** The paths of the files removed from disk, in order. */
  function RemovedPaths(T: Node, items: seq<seq<nat>>, steps: seq<Step>): seq<string>
    requires AllValid(T, items) && |steps| <= |items|
  {
    if steps == [] then []
    else
      var n := |steps| - 1;
      RemovedPaths(T, items, steps[..n]) + (if steps[n].delete then [At(T, items[n]).item.entry.path] else [])
  }

  // ---------------------------------------------------------------------
  // Lemmas

  lemma SelectedValid(T: Node)
    ensures AllValid(T, SelectedPaths(T))
  {
    var ps := SelectedPaths(T);
    forall j | 0 <= j < |ps| ensures ps[j] != [] && ValidPath(T, ps[j]) {
      assert ps[j] in ps;
    }
  }

  predicate Distinct(ps: seq<seq<nat>>)
  {
    forall a, b :: 0 <= a < b < |ps| ==> ps[a] != ps[b]
  }

  lemma DistinctConcat(A: seq<seq<nat>>, B: seq<seq<nat>>)
    requires Distinct(A) && Distinct(B)
    requires forall x, y :: x in A && y in B ==> x != y
    ensures Distinct(A + B)
  {
    forall a, b | 0 <= a < b < |A + B| ensures (A + B)[a] != (A + B)[b] {
      if b < |A| {
        assert (A + B)[a] == A[a] && (A + B)[b] == A[b];
      } else if a < |A| {
        assert (A + B)[a] == A[a] && (A + B)[b] == B[b - |A|] && A[a] in A && B[b - |A|] in B;
      } else {
        assert (A + B)[a] == B[a - |A|] && (A + B)[b] == B[b - |A|];
      }
    }
  }

  lemma PrependDistinct(i: nat, ps: seq<seq<nat>>)
    requires Distinct(ps)
    ensures Distinct(Prepend(i, ps))
  {
    var r := Prepend(i, ps);
    forall a, b | 0 <= a < b < |r| ensures r[a] != r[b] {
      assert r[a][1..] == ps[a] && r[b][1..] == ps[b];
    }
  }

  /** selectedItems lists every selected item once. */
  lemma {:induction false} SelectedDistinct(n: Node)
    ensures Distinct(SelectedPaths(n))
    decreases n, 1
  {
    SelectedFromDistinct(n, 0);
    assert SelectedPaths(n) == SelectedFrom(n, 0);
  }

  lemma {:induction false} SelectedFromDistinct(n: Node, i: nat)
    requires i <= |n.children|
    ensures Distinct(SelectedFrom(n, i))
    decreases n, 0, |n.children| - i
  {
    if i < |n.children| {
      var c := n.children[i];
      var own: seq<seq<nat>> := if c.item.selected then [[i]] else [];
      var sub := SelectedPaths(c);
      var below := Prepend(i, sub);
      var rest := SelectedFrom(n, i + 1);
      assert SelectedFrom(n, i) == own + below + rest;
      SelectedDistinct(c);
      PrependDistinct(i, sub);
      forall x, y | x in own && y in below ensures x != y {
        var k :| 0 <= k < |below| && below[k] == y;
        assert sub[k] in sub;
      }
      DistinctConcat(own, below);
      SelectedFromDistinct(n, i + 1);
      forall x, y | x in own + below && y in rest ensures x != y {
        if x in below {
          var k :| 0 <= k < |below| && below[k] == x;
        }
      }
      DistinctConcat(own + below, rest);
    }
  }

  /** The members of DeletedSet are exactly the items of deleting steps. */
  lemma {:induction false} DeletedMembers(items: seq<seq<nat>>, steps: seq<Step>, x: seq<nat>)
    requires |steps| <= |items|
    ensures x in DeletedSet(items, steps) <==> exists j :: 0 <= j < |steps| && steps[j].delete && items[j] == x
    decreases |steps|
  {
    if steps != [] {
      var n := |steps| - 1;
      DeletedMembers(items, steps[..n], x);
      if x in DeletedSet(items, steps[..n]) {
        var j :| 0 <= j < n && steps[..n][j].delete && items[j] == x;
        assert steps[j] == steps[..n][j];
      }
      if exists j :: 0 <= j < |steps| && steps[j].delete && items[j] == x {
        var j :| 0 <= j < |steps| && steps[j].delete && items[j] == x;
        if j < n {
          assert steps[..n][j] == steps[j];
        }
      }
    }
  }

  /** Before step i nothing on the way to items[i] has been deleted:
      earlier items are other items, and those deleted are files, which
      have no selected item below them. */
  lemma CleanBeforeStep(T: Node, items: seq<seq<nat>>, steps: seq<Step>, i: nat)
    requires items == SelectedPaths(T) && NoneBelowSelectedFile(T)
    requires i < |items| && |steps| == i
    requires forall j :: 0 <= j < i && steps[j].delete ==> At(T, items[j]).item.entry.kind == File
    ensures ValidPath(T, items[i]) && Clean(DeletedSet(items, steps), [], items[i])
  {
    SelectedValid(T);
    SelectedDistinct(T);
    var q := items[i];
    assert q in items;
    forall m | 0 < m <= |q| ensures [] + q[..m] !in DeletedSet(items, steps) {
      forall j | 0 <= j < |steps| && steps[j].delete ensures items[j] != q[..m] {
        assert items[j] in items;
        assert IsPrefix(q[..m], q);
      }
      DeletedMembers(items, steps, q[..m]);
      assert [] + q[..m] == q[..m];
    }
  }

  /** onFileDelete deletes selected FILE items only. */
  lemma DeletesOnlyFiles(T: Node, answers: seq<Answer>)
    ensures AllValid(T, SelectedPaths(T))
    ensures var items := SelectedPaths(T); var steps := Decisions(FileFlags(T, items), answers);
      forall x :: x in DeletedSet(items, steps) ==> SelectedAt(T, x) && At(T, x).item.entry.kind == File
  {
    SelectedValid(T);
    var items := SelectedPaths(T);
    var files := FileFlags(T, items);
    var steps := Decisions(files, answers);
    StepsOfPlan(files, answers, 0, No);
    forall x | x in DeletedSet(items, steps) ensures SelectedAt(T, x) && At(T, x).item.entry.kind == File {
      DeletedMembers(items, steps, x);
      var j :| 0 <= j < |steps| && steps[j].delete && items[j] == x;
      assert items[j] in items;
    }
  }

  /** The state of onFileDelete's loop after the steps done: the items
      deleted are files, and the tree, the index and the removed paths are
      those the steps produce. */
  ghost predicate Reached(T: Node, idx: FileIndex, items: seq<seq<nat>>, done: seq<Step>,
                          gone: set<seq<nat>>, root: Node, index: FileIndex, removed: seq<string>)
    requires AllValid(T, items) && |done| <= |items|
  {
    (forall j :: 0 <= j < |done| && done[j].delete ==> At(T, items[j]).item.entry.kind == File)
    && gone == DeletedSet(items, done) && root == Prune(T, gone, [])
    && index == IndexAfter(T, idx, items, done) && removed == RemovedPaths(T, items, done)
  }

  /** A step that deletes nothing changes nothing. */
  lemma KeepStep(T: Node, idx: FileIndex, items: seq<seq<nat>>, done: seq<Step>, step: Step,
                 gone: set<seq<nat>>, root: Node, index: FileIndex, removed: seq<string>)
    requires AllValid(T, items) && |done| < |items| && !step.delete
    requires Reached(T, idx, items, done, gone, root, index, removed)
    ensures Reached(T, idx, items, done + [step], gone, root, index, removed)
  {
    var next := done + [step];
    assert next[..|done|] == done;
  }

  /** A step that deletes the file items[i] removes it from the tree, from
      its parent index node and from disk. */
  lemma DeleteStep(T: Node, idx: FileIndex, items: seq<seq<nat>>, done: seq<Step>, step: Step,
                   gone: set<seq<nat>>, root: Node, index: FileIndex, removed: seq<string>,
                   index': FileIndex)
    requires AllValid(T, items) && |done| < |items| && step.delete
    requires At(T, items[|done|]).item.entry.kind == File
    requires Reached(T, idx, items, done, gone, root, index, removed)
    requires var c := Chain(T, items[|done|]); index' == EditAt(index, c[..|c| - 1], RemoveChild(c[|c| - 1]))
    ensures Reached(T, idx, items, done + [step], gone + {items[|done|]},
                    Prune(T, gone + {items[|done|]}, []), index',
                    removed + [At(T, items[|done|]).item.entry.path])
  {
    var next := done + [step];
    assert next[..|done|] == done;
  }

  /** After YesToAll every later selected FILE item is deleted without a
      question, and no later item that is not a file is. */
  lemma YesToAllDeletesRest(T: Node, answers: seq<Answer>, k: nat)
    requires AllValid(T, SelectedPaths(T))
    requires k < |Decisions(FileFlags(T, SelectedPaths(T)), answers)|
    requires Decisions(FileFlags(T, SelectedPaths(T)), answers)[k].answer == YesToAll
    ensures var items := SelectedPaths(T); var steps := Decisions(FileFlags(T, items), answers);
      |steps| == |items|
      && forall j :: k < j < |items| ==>
           !steps[j].asked && (steps[j].delete <==> At(T, items[j]).item.entry.kind == File)
           && (At(T, items[j]).item.entry.kind == File ==> items[j] in DeletedSet(items, steps))
  {
    var items := SelectedPaths(T);
    var files := FileFlags(T, items);
    var steps := Decisions(files, answers);
    YesToAllToTheEnd(files, answers, k);
    forall j | k < j < |items| && At(T, items[j]).item.entry.kind == File
      ensures items[j] in DeletedSet(items, steps)
    {
      DeletedMembers(items, steps, items[j]);
    }
  }
}
