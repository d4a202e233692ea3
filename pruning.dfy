/** Removing items from the outline: the tree without a set of items, and
    where the remaining items then sit. */
module Pruning {
  import opened Index
  import opened Tree

  /** How many of the first i children of the item at `at` are in D. */
  function Before(D: set<seq<nat>>, at: seq<nat>, i: nat): (c: nat)
    ensures c <= i
  {
    if i == 0 then 0 else Before(D, at, i - 1) + (if at + [i - 1] in D then 1 else 0)
  }

  /** The subtree n, sitting at `at` in the original tree, without the
      items whose original paths are in D (and everything below them). */
  function Prune(n: Node, D: set<seq<nat>>, at: seq<nat>): Node
    decreases n, 1
  {
    n.(children := PruneKids(n, D, at, |n.children|))
  }

  /** The first i children of n, pruned. */
  function PruneKids(n: Node, D: set<seq<nat>>, at: seq<nat>, i: nat): (r: seq<Node>)
    requires i <= |n.children|
    ensures |r| == i - Before(D, at, i)
    decreases n, 0, i
  {
    if i == 0 then []
    else PruneKids(n, D, at, i - 1)
         + (if at + [i - 1] in D then [] else [Prune(n.children[i - 1], D, at + [i - 1])])
  }

  /** Where the item at at + q ends up once D is gone: at every level its
      position drops by the number of removed siblings before it. */
  function Moved(D: set<seq<nat>>, at: seq<nat>, q: seq<nat>): (r: seq<nat>)
    ensures |r| == |q|
    decreases q
  {
    if q == [] then [] else [q[0] - Before(D, at, q[0])] + Moved(D, at + [q[0]], q[1..])
  }

  /** Neither the item at at + q nor any item between `at` and it is in D. */
  ghost predicate Clean(D: set<seq<nat>>, at: seq<nat>, q: seq<nat>)
  {
    forall m :: 0 < m <= |q| ==> at + q[..m] !in D
  }

  /** Removes the item at d, with its subtree, from its parent's children. */
  function Remove(n: Node, d: seq<nat>): Node
    requires ValidPath(n, d) && d != []
    decreases d
  {
    if |d| == 1 then n.(children := n.children[..d[0]] + n.children[d[0] + 1..])
    else n.(children := n.children[d[0] := Remove(n.children[d[0]], d[1..])])
  }

  // ---------------------------------------------------------------------
  // Lemmas

  /** A kept child sits, after pruning, at its position less the removed
      siblings before it. */
  lemma {:induction false} PruneKidsAt(n: Node, D: set<seq<nat>>, at: seq<nat>, i: nat, k: nat)
    requires k < i <= |n.children| && at + [k] !in D
    ensures k - Before(D, at, k) < |PruneKids(n, D, at, i)|
    ensures PruneKids(n, D, at, i)[k - Before(D, at, k)] == Prune(n.children[k], D, at + [k])
    decreases i
  {
    if k < i - 1 {
      PruneKidsAt(n, D, at, i - 1, k);
    }
  }

  /** The kept children keep their order. */
  lemma {:induction false} KeptInOrder(D: set<seq<nat>>, at: seq<nat>, i: nat, j: nat)
    requires i < j && at + [i] !in D
    ensures i - Before(D, at, i) < j - Before(D, at, j)
    decreases j
  {
    if i < j - 1 {
      KeptInOrder(D, at, i, j - 1);
    }
  }

  /** Pruning keeps every item that is not removed, with its item and its
      pruned subtree, at its moved path. */
  lemma {:induction false} PruneAt(n: Node, D: set<seq<nat>>, at: seq<nat>, q: seq<nat>)
    requires ValidPath(n, q) && Clean(D, at, q)
    ensures ValidPath(Prune(n, D, at), Moved(D, at, q))
    ensures At(Prune(n, D, at), Moved(D, at, q)) == Prune(At(n, q), D, at + q)
    decreases q
  {
    if q == [] {
      assert at + q == at;
    } else {
      var k := q[0];
      assert q[..1] == [k];
      PruneKidsAt(n, D, at, |n.children|, k);
      forall m | 0 < m <= |q[1..]| ensures (at + [k]) + q[1..][..m] !in D {
        assert (at + [k]) + q[1..][..m] == at + q[..m + 1];
      }
      PruneAt(n.children[k], D, at + [k], q[1..]);
      assert (at + [k]) + q[1..] == at + q;
    }
  }

  /** The entries on the way to an item do not change when other items go. */
  lemma {:induction false} ChainMoved(n: Node, D: set<seq<nat>>, at: seq<nat>, q: seq<nat>)
    requires ValidPath(n, q) && Clean(D, at, q)
    ensures ValidPath(Prune(n, D, at), Moved(D, at, q))
    ensures Chain(Prune(n, D, at), Moved(D, at, q)) == Chain(n, q)
    decreases q
  {
    PruneAt(n, D, at, q);
    if q != [] {
      var k := q[0];
      assert q[..1] == [k];
      PruneKidsAt(n, D, at, |n.children|, k);
      forall m | 0 < m <= |q[1..]| ensures (at + [k]) + q[1..][..m] !in D {
        assert (at + [k]) + q[1..][..m] == at + q[..m + 1];
      }
      ChainMoved(n.children[k], D, at + [k], q[1..]);
    }
  }

  /** Pruning below `at` only looks at the members of D strictly below at. */
  lemma {:induction false} PruneSame(n: Node, D1: set<seq<nat>>, D2: set<seq<nat>>, at: seq<nat>)
    requires forall x :: |x| > |at| && x[..|at|] == at ==> (x in D1 <==> x in D2)
    ensures Prune(n, D1, at) == Prune(n, D2, at)
    decreases n, 1
  {
    PruneKidsSame(n, D1, D2, at, |n.children|);
  }

  lemma {:induction false} PruneKidsSame(n: Node, D1: set<seq<nat>>, D2: set<seq<nat>>, at: seq<nat>, i: nat)
    requires i <= |n.children|
    requires forall x :: |x| > |at| && x[..|at|] == at ==> (x in D1 <==> x in D2)
    ensures PruneKids(n, D1, at, i) == PruneKids(n, D2, at, i)
    decreases n, 0, i
  {
    if i > 0 {
      PruneKidsSame(n, D1, D2, at, i - 1);
      var y := at + [i - 1];
      assert y[..|at|] == at;
      forall x | |x| > |y| && x[..|y|] == y ensures x in D1 <==> x in D2 {
        assert x[..|at|] == y[..|at|];
      }
      PruneSame(n.children[i - 1], D1, D2, y);
    }
  }

  /** Child j, pruned, unless it is itself removed. */
  function Kept(n: Node, D: set<seq<nat>>, at: seq<nat>, j: nat): seq<Node>
    requires j < |n.children|
  {
    if at + [j] in D then [] else [Prune(n.children[j], D, at + [j])]
  }

  /** The i-th child is pruned alike with and without y when y does not
      lie below it. */
  lemma KidsStep(n: Node, D: set<seq<nat>>, at: seq<nat>, y: seq<nat>, i: nat)
    requires 0 < i <= |n.children| && !IsPrefix(at + [i - 1], y)
    ensures PruneKids(n, D + {y}, at, i) == PruneKids(n, D + {y}, at, i - 1) + Kept(n, D, at, i - 1)
    ensures PruneKids(n, D, at, i) == PruneKids(n, D, at, i - 1) + Kept(n, D, at, i - 1)
  {
    var z := at + [i - 1];
    forall x | |x| > |z| && x[..|z|] == z ensures x in D + {y} <==> x in D {
    }
    PruneSame(n.children[i - 1], D + {y}, D, z);
  }

  /** Adding y to D leaves the first i children as they were when y lies
      below none of them. */
  lemma {:induction false} KidsUnaffected(n: Node, D: set<seq<nat>>, at: seq<nat>, y: seq<nat>, i: nat)
    requires i <= |n.children|
    requires forall j :: 0 <= j < i ==> !IsPrefix(at + [j], y)
    ensures PruneKids(n, D + {y}, at, i) == PruneKids(n, D, at, i)
    decreases i
  {
    if i > 0 {
      KidsUnaffected(n, D, at, y, i - 1);
      KidsStep(n, D, at, y, i);
    }
  }

  /** Adding the child k itself to D drops it from the pruned children. */
  lemma {:induction false} KidsDrop(n: Node, D: set<seq<nat>>, at: seq<nat>, k: nat, i: nat)
    requires k < i <= |n.children| && at + [k] !in D
    ensures k - Before(D, at, k) < |PruneKids(n, D, at, i)|
    ensures PruneKids(n, D + {at + [k]}, at, i)
            == PruneKids(n, D, at, i)[..k - Before(D, at, k)] + PruneKids(n, D, at, i)[k - Before(D, at, k) + 1..]
    decreases i
  {
    if i == k + 1 {
      KidsDropFirst(n, D, at, k);
    } else {
      KidsDrop(n, D, at, k, i - 1);
      KidsDropStep(n, D, at, k, i);
    }
  }

  /** KidsDrop for the first k + 1 children. */
  lemma KidsDropFirst(n: Node, D: set<seq<nat>>, at: seq<nat>, k: nat)
    requires k < |n.children| && at + [k] !in D
    ensures k - Before(D, at, k) < |PruneKids(n, D, at, k + 1)|
    ensures PruneKids(n, D + {at + [k]}, at, k + 1)
            == PruneKids(n, D, at, k + 1)[..k - Before(D, at, k)] + PruneKids(n, D, at, k + 1)[k - Before(D, at, k) + 1..]
  {
    var y := at + [k];
    forall j | 0 <= j < k ensures !IsPrefix(at + [j], y) {
      assert y[|at|] == k;
    }
    KidsUnaffected(n, D, at, y, k);
    var v := Prune(n.children[k], D, y);
    assert PruneKids(n, D + {y}, at, k + 1) == PruneKids(n, D + {y}, at, k) + [];
    assert PruneKids(n, D, at, k + 1) == PruneKids(n, D, at, k) + [v];
    DropLast(PruneKids(n, D, at, k), v);
  }

  /** KidsDrop from i - 1 children to i. */
  lemma KidsDropStep(n: Node, D: set<seq<nat>>, at: seq<nat>, k: nat, i: nat)
    requires k + 1 < i <= |n.children| && at + [k] !in D
    requires k - Before(D, at, k) < |PruneKids(n, D, at, i - 1)|
    requires PruneKids(n, D + {at + [k]}, at, i - 1)
             == PruneKids(n, D, at, i - 1)[..k - Before(D, at, k)] + PruneKids(n, D, at, i - 1)[k - Before(D, at, k) + 1..]
    ensures k - Before(D, at, k) < |PruneKids(n, D, at, i)|
    ensures PruneKids(n, D + {at + [k]}, at, i)
            == PruneKids(n, D, at, i)[..k - Before(D, at, k)] + PruneKids(n, D, at, i)[k - Before(D, at, k) + 1..]
  {
    var y := at + [k];
    assert !IsPrefix(at + [i - 1], y) by { assert (at + [i - 1])[|at|] != y[|at|]; }
    KidsStep(n, D, at, y, i);
    DropThenAppend(PruneKids(n, D, at, i - 1), Kept(n, D, at, i - 1), k - Before(D, at, k));
  }

  lemma DropLast(A: seq<Node>, v: Node)
    ensures (A + [v])[..|A|] + (A + [v])[|A| + 1..] == A + []
  {
    assert (A + [v])[..|A|] == A;
  }

  lemma DropThenAppend(A: seq<Node>, X: seq<Node>, k: nat)
    requires k < |A|
    ensures (A + X)[..k] + (A + X)[k + 1..] == A[..k] + A[k + 1..] + X
  {
  }

  lemma UpdateThenAppend(A: seq<Node>, X: seq<Node>, k: nat, v: Node)
    requires k < |A|
    ensures (A + X)[k := v] == A[k := v] + X
  {
  }

  /** Adding an item strictly below child k to D changes only that child. */
  lemma {:induction false} KidsReplace(n: Node, D: set<seq<nat>>, at: seq<nat>, k: nat, y: seq<nat>, i: nat)
    requires k < i <= |n.children| && at + [k] !in D
    requires |y| > |at| + 1 && y[..|at| + 1] == at + [k]
    ensures k - Before(D, at, k) < |PruneKids(n, D, at, i)|
    ensures PruneKids(n, D + {y}, at, i)
            == PruneKids(n, D, at, i)[k - Before(D, at, k) := Prune(n.children[k], D + {y}, at + [k])]
    decreases i
  {
    if i == k + 1 {
      KidsReplaceFirst(n, D, at, k, y);
    } else {
      KidsReplace(n, D, at, k, y, i - 1);
      KidsReplaceStep(n, D, at, k, y, i);
    }
  }

  /** KidsReplace for the first k + 1 children. */
  lemma KidsReplaceFirst(n: Node, D: set<seq<nat>>, at: seq<nat>, k: nat, y: seq<nat>)
    requires k < |n.children| && at + [k] !in D
    requires |y| > |at| + 1 && y[..|at| + 1] == at + [k]
    ensures k - Before(D, at, k) < |PruneKids(n, D, at, k + 1)|
    ensures PruneKids(n, D + {y}, at, k + 1)
            == PruneKids(n, D, at, k + 1)[k - Before(D, at, k) := Prune(n.children[k], D + {y}, at + [k])]
  {
    assert y[|at|] == (at + [k])[|at|] == k;
    forall j | 0 <= j < k ensures !IsPrefix(at + [j], y) {
      assert y[|at|] == k;
    }
    KidsUnaffected(n, D, at, y, k);
    assert at + [k] != y;
    var P := PruneKids(n, D, at, k);
    assert PruneKids(n, D, at, k + 1) == P + [Prune(n.children[k], D, at + [k])];
    assert PruneKids(n, D + {y}, at, k + 1) == P + [Prune(n.children[k], D + {y}, at + [k])];
  }

  /** KidsReplace from i - 1 children to i. */
  lemma KidsReplaceStep(n: Node, D: set<seq<nat>>, at: seq<nat>, k: nat, y: seq<nat>, i: nat)
    requires k + 1 < i <= |n.children| && at + [k] !in D
    requires |y| > |at| + 1 && y[..|at| + 1] == at + [k]
    requires k - Before(D, at, k) < |PruneKids(n, D, at, i - 1)|
    requires PruneKids(n, D + {y}, at, i - 1)
             == PruneKids(n, D, at, i - 1)[k - Before(D, at, k) := Prune(n.children[k], D + {y}, at + [k])]
    ensures k - Before(D, at, k) < |PruneKids(n, D, at, i)|
    ensures PruneKids(n, D + {y}, at, i)
            == PruneKids(n, D, at, i)[k - Before(D, at, k) := Prune(n.children[k], D + {y}, at + [k])]
  {
    assert y[|at|] == (at + [k])[|at|] == k;
    assert !IsPrefix(at + [i - 1], y) by { assert (at + [i - 1])[|at|] != y[|at|]; }
    KidsStep(n, D, at, y, i);
    UpdateThenAppend(PruneKids(n, D, at, i - 1), Kept(n, D, at, i - 1), k - Before(D, at, k),
                     Prune(n.children[k], D + {y}, at + [k]));
  }

  /** Removing an item at its moved path gives the tree pruned of it as
      well: the source's in-place removals and the declarative Prune agree. */
  lemma {:induction false} RemoveMoved(n: Node, D: set<seq<nat>>, at: seq<nat>, d: seq<nat>)
    requires ValidPath(n, d) && d != [] && Clean(D, at, d)
    ensures ValidPath(Prune(n, D, at), Moved(D, at, d))
    ensures Remove(Prune(n, D, at), Moved(D, at, d)) == Prune(n, D + {at + d}, at)
    decreases d
  {
    PruneAt(n, D, at, d);
    var k := d[0];
    assert d[..1] == [k];
    var y := at + d;
    if |d| == 1 {
      assert y == at + [k];
      KidsDrop(n, D, at, k, |n.children|);
    } else {
      forall m | 0 < m <= |d[1..]| ensures (at + [k]) + d[1..][..m] !in D {
        assert (at + [k]) + d[1..][..m] == at + d[..m + 1];
      }
      RemoveMoved(n.children[k], D, at + [k], d[1..]);
      assert (at + [k]) + d[1..] == y;
      assert y[..|at| + 1] == at + [k];
      KidsReplace(n, D, at, k, y, |n.children|);
      PruneKidsAt(n, D, at, |n.children|, k);
    }
  }

  /** Pruning nothing changes nothing. */
  lemma {:induction false} PruneNone(n: Node)
    ensures forall at :: Prune(n, {}, at) == n
    decreases n, 1
  {
    forall at ensures Prune(n, {}, at) == n {
      PruneNoneKids(n, at, |n.children|);
      assert n.children[..|n.children|] == n.children;
    }
  }

  lemma {:induction false} PruneNoneKids(n: Node, at: seq<nat>, i: nat)
    requires i <= |n.children|
    ensures PruneKids(n, {}, at, i) == n.children[..i]
    decreases n, 0, i
  {
    if i > 0 {
      PruneNoneKids(n, at, i - 1);
      PruneNone(n.children[i - 1]);
      assert n.children[..i] == n.children[..i - 1] + [n.children[i - 1]];
    }
  }
}
