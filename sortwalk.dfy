/** sortItems as a whole: a stack of items still to sort, each pass sorting
    one level and pushing the children that need sorting in turn. */
module SortWalk {
  import opened Index
  import opened Tree
  import opened SortLevel
  import opened Reinsert
  import opened PushOrder

  /** The tree below X once sortItems is done with it: its level sorted and
      every eligible child (a directory with more than one child) sorted
      the same way.  Files and their pages are never reordered inside. */
  function SortNode(X: Node, col: SortColumn, ascending: bool): Node
    decreases X
  {
    var N := Level(X, col, ascending).children;
    LevelPermutation(X, col, ascending);
    X.(children := seq(|N|, k requires 0 <= k < |N| =>
         if Eligible(N[k]) then (assert N[k] in multiset(X.children); SortNode(N[k], col, ascending))
         else N[k]))
  }

  /** The children with those at the positions ks sorted. */
  function SortAt(N: seq<Node>, ks: seq<nat>, col: SortColumn, ascending: bool): (r: seq<Node>)
    ensures |r| == |N|
  {
    seq(|N|, k requires 0 <= k < |N| => if k in ks then SortNode(N[k], col, ascending) else N[k])
  }

  /** The tree once every item on the stack S has been sorted, the top
      (the last element) first. */
  function FoldStack(T: Node, S: seq<seq<nat>>, col: SortColumn, ascending: bool): Node
    decreases |S|
  {
    if S == [] then T
    else
      var s := S[|S| - 1];
      var T1 := if ValidPath(T, s) then Put(T, s, SortNode(At(T, s), col, ascending)) else T;
      FoldStack(T1, S[..|S| - 1], col, ascending)
  }

  /** The paths of the children of s at positions ks. */
  function PushedPaths(s: seq<nat>, ks: seq<nat>): (r: seq<seq<nat>>)
    ensures |r| == |ks| && forall m :: 0 <= m < |ks| ==> r[m] == s + [ks[m]]
  {
    seq(|ks|, m requires 0 <= m < |ks| => s + [ks[m]])
  }

  lemma {:induction false} FoldConcat(T: Node, A: seq<seq<nat>>, B: seq<seq<nat>>, col: SortColumn, ascending: bool)
    ensures FoldStack(T, A + B, col, ascending) == FoldStack(FoldStack(T, B, col, ascending), A, col, ascending)
    decreases |B|
  {
    if B == [] {
      assert A + B == A;
    } else {
      var b := B[|B| - 1];
      var T1 := if ValidPath(T, b) then Put(T, b, SortNode(At(T, b), col, ascending)) else T;
      assert (A + B)[..|A + B| - 1] == A + B[..|B| - 1];
      FoldConcat(T1, A, B[..|B| - 1], col, ascending);
    }
  }

  lemma {:induction false} PutTwice(T: Node, s: seq<nat>, Y: Node, Z: Node)
    requires ValidPath(T, s)
    ensures ValidPath(Put(T, s, Y), s) && Put(Put(T, s, Y), s, Z) == Put(T, s, Z)
    decreases s
  {
    if s != [] {
      PutTwice(T.children[s[0]], s[1..], Y, Z);
    }
  }

  lemma {:induction false} PutSame(T: Node, s: seq<nat>)
    requires ValidPath(T, s)
    ensures Put(T, s, At(T, s)) == T
    decreases s
  {
    if s != [] {
      PutSame(T.children[s[0]], s[1..]);
    }
  }

  lemma {:induction false} PutChild(T: Node, s: seq<nat>, Y: Node, k: nat, Z: Node)
    requires ValidPath(T, s) && k < |Y.children|
    ensures ValidPath(Put(T, s, Y), s + [k]) && At(Put(T, s, Y), s + [k]) == Y.children[k]
    ensures Put(Put(T, s, Y), s + [k], Z) == Put(T, s, Y.(children := Y.children[k := Z]))
    decreases s
  {
    if s == [] {
      assert [k][1..] == [];
      assert s + [k] == [k];
    } else {
      assert (s + [k])[0] == s[0] && (s + [k])[1..] == s[1..] + [k];
      PutChild(T.children[s[0]], s[1..], Y, k, Z);
    }
  }

  /** Sorting the pushed children one by one sorts each of them in place. */
  lemma {:induction false} FoldChildren(T: Node, s: seq<nat>, Y: Node, ks: seq<nat>, col: SortColumn, ascending: bool)
    requires ValidPath(T, s)
    requires forall m :: 0 <= m < |ks| ==> ks[m] < |Y.children|
    requires forall a, b :: 0 <= a < b < |ks| ==> ks[a] != ks[b]
    ensures FoldStack(Put(T, s, Y), PushedPaths(s, ks), col, ascending)
            == Put(T, s, Y.(children := SortAt(Y.children, ks, col, ascending)))
    decreases |ks|
  {
    if ks == [] {
      assert Y.(children := SortAt(Y.children, ks, col, ascending)) == Y;
    } else {
      var n := |ks| - 1;
      var k := ks[n];
      var ks0 := ks[..n];
      var Y1 := Y.(children := Y.children[k := SortNode(Y.children[k], col, ascending)]);
      PutChild(T, s, Y, k, SortNode(Y.children[k], col, ascending));
      assert PushedPaths(s, ks)[..n] == PushedPaths(s, ks0);
      FoldChildren(T, s, Y1, ks0, col, ascending);
      assert k !in ks0;
      assert ks == ks0 + [k];
      SortAtOneMore(Y.children, ks0, k, col, ascending);
    }
  }

  lemma SortAtOneMore(N: seq<Node>, ks: seq<nat>, k: nat, col: SortColumn, ascending: bool)
    requires k < |N| && k !in ks
    ensures SortAt(N[k := SortNode(N[k], col, ascending)], ks, col, ascending)
            == SortAt(N, ks + [k], col, ascending)
  {
    var A := SortAt(N[k := SortNode(N[k], col, ascending)], ks, col, ascending);
    var B := SortAt(N, ks + [k], col, ascending);
    forall j | 0 <= j < |N| ensures A[j] == B[j] {
      assert (j in ks + [k]) <==> (j in ks || j == k);
    }
  }

  /** Sorting the level at s and sorting its pushed children (in any
      order, before what lay below on the stack) is sorting the subtree. */
  lemma SortStep(T: Node, S: seq<seq<nat>>, s: seq<nat>, col: SortColumn, ascending: bool)
    requires ValidPath(T, s)
    ensures var X := At(T, s);
      FoldStack(Put(T, s, Level(X, col, ascending)), S + PushedPaths(s, Positions(X, col, ascending)), col, ascending)
      == FoldStack(T, S + [s], col, ascending)
  {
    var X := At(T, s);
    var Y := Level(X, col, ascending);
    var ks := Positions(X, col, ascending);
    PositionsFacts(X, col, ascending);
    LevelPermutation(X, col, ascending);
    FoldConcat(Put(T, s, Y), S, PushedPaths(s, ks), col, ascending);
    FoldChildren(T, s, Y, ks, col, ascending);
    SortAtEligible(X, ks, col, ascending);
    assert (S + [s])[..|S|] == S;
  }

  /** Sorting the sorted level's children at the eligible positions is
      sorting X. */
  lemma SortAtEligible(X: Node, ks: seq<nat>, col: SortColumn, ascending: bool)
    requires var N := Level(X, col, ascending).children;
      forall k :: 0 <= k < |N| ==> (Eligible(N[k]) <==> k in ks)
    ensures var Y := Level(X, col, ascending);
      Y.(children := SortAt(Y.children, ks, col, ascending)) == SortNode(X, col, ascending)
  {
    var Y := Level(X, col, ascending);
    var A := SortAt(Y.children, ks, col, ascending);
    var B := SortNode(X, col, ascending).children;
    assert |A| == |B|;
    forall k | 0 <= k < |A| ensures A[k] == B[k] {
    }
    assert A == B;
  }

  /** A stack holding only r sorts the subtree at r. */
  lemma SortStart(T: Node, r: seq<nat>, col: SortColumn, ascending: bool)
    requires ValidPath(T, r)
    ensures FoldStack(T, [r], col, ascending) == Put(T, r, SortNode(At(T, r), col, ascending))
    ensures SortStackOk(T, [r])
  {
    var S: seq<seq<nat>> := [r];
    assert S[..0] == [];
  }

  // ---------------------------------------------------------------------
  // The stack stays well formed and its weight goes down

  predicate Incomparable(p: seq<nat>, q: seq<nat>)
  {
    !IsPrefix(p, q) && !IsPrefix(q, p)
  }

  /** Every stacked item exists, and none lies below another. */
  predicate SortStackOk(T: Node, S: seq<seq<nat>>)
  {
    (forall i :: 0 <= i < |S| ==> ValidPath(T, S[i])) &&
    (forall i, j :: 0 <= i < j < |S| ==> Incomparable(S[i], S[j]))
  }

  /** The number of items in the stacked subtrees. */
  function SortWeight(T: Node, S: seq<seq<nat>>): nat
    decreases |S|
  {
    if S == [] then 0
    else
      var s := S[|S| - 1];
      SortWeight(T, S[..|S| - 1]) + (if ValidPath(T, s) then Size(At(T, s)) else 0)
  }

  lemma {:induction false} WeightConcat(T: Node, A: seq<seq<nat>>, B: seq<seq<nat>>)
    ensures SortWeight(T, A + B) == SortWeight(T, A) + SortWeight(T, B)
    decreases |B|
  {
    if B == [] {
      assert A + B == A;
    } else {
      assert (A + B)[..|A + B| - 1] == A + B[..|B| - 1];
      WeightConcat(T, A, B[..|B| - 1]);
    }
  }

  /** Replacing the subtree at s leaves the weight of items beside it. */
  lemma {:induction false} WeightOutside(T: Node, s: seq<nat>, x: Node, S: seq<seq<nat>>)
    requires ValidPath(T, s)
    requires forall i :: 0 <= i < |S| ==> ValidPath(T, S[i]) && Incomparable(S[i], s)
    ensures SortWeight(Put(T, s, x), S) == SortWeight(T, S)
    decreases |S|
  {
    if S != [] {
      var n := |S| - 1;
      PutFacts(T, s, x, S[n]);
      WeightOutside(T, s, x, S[..n]);
    }
  }

  function SumSizes(N: seq<Node>, ks: seq<nat>): nat
    requires forall m :: 0 <= m < |ks| ==> ks[m] < |N|
  {
    if ks == [] then 0 else SumSizes(N, ks[..|ks| - 1]) + Size(N[ks[|ks| - 1]])
  }

  lemma {:induction false} WeightOfChildren(T: Node, s: seq<nat>, Y: Node, ks: seq<nat>)
    requires ValidPath(T, s)
    requires forall m :: 0 <= m < |ks| ==> ks[m] < |Y.children|
    ensures SortWeight(Put(T, s, Y), PushedPaths(s, ks)) == SumSizes(Y.children, ks)
    decreases |ks|
  {
    if ks != [] {
      var n := |ks| - 1;
      assert PushedPaths(s, ks)[..n] == PushedPaths(s, ks[..n]);
      WeightOfChildren(T, s, Y, ks[..n]);
      PutChild(T, s, Y, ks[n], Y.children[ks[n]]);
    }
  }

  lemma {:induction false} SumSizesSame(N: seq<Node>, ks: seq<nat>, cs: seq<Node>, J: seq<nat>)
    requires |ks| == |J|
    requires forall m :: 0 <= m < |ks| ==> ks[m] < |N| && J[m] < |cs| && N[ks[m]] == cs[J[m]]
    ensures SumSizes(N, ks) == SumSizes(cs, J)
    decreases |ks|
  {
    if ks != [] {
      SumSizesSame(N, ks[..|ks| - 1], cs, J[..|J| - 1]);
    }
  }

  lemma {:induction false} SizeAllMono(cs: seq<Node>, a: nat, b: nat)
    requires a <= b <= |cs|
    ensures SizeAll(cs[..a]) <= SizeAll(cs[..b])
    decreases b
  {
    if a < b {
      SizeAllMono(cs, a, b - 1);
      assert cs[..b][..b - 1] == cs[..b - 1];
    }
  }

  /** Children named by increasing positions below n weigh at most the
      first n children together. */
  lemma {:induction false} SumBound(cs: seq<Node>, J: seq<nat>, n: nat)
    requires n <= |cs|
    requires forall m :: 0 <= m < |J| ==> J[m] < n
    requires forall a, b :: 0 <= a < b < |J| ==> J[a] < J[b]
    ensures SumSizes(cs, J) <= SizeAll(cs[..n])
    decreases |J|
  {
    if J != [] {
      var t := J[|J| - 1];
      SumBound(cs, J[..|J| - 1], t);
      assert cs[..t + 1][..t] == cs[..t];
      SizeAllMono(cs, t + 1, n);
    }
  }

  /** What one pass over the item at s pushes weighs less than that item. */
  lemma PushedLighter(T: Node, s: seq<nat>, col: SortColumn, ascending: bool)
    requires ValidPath(T, s)
    ensures var X := At(T, s); var Y := Level(X, col, ascending);
      var ks := Positions(X, col, ascending);
      (forall m :: 0 <= m < |ks| ==> ks[m] < |Y.children|) &&
      SortWeight(Put(T, s, Y), PushedPaths(s, ks)) < Size(X)
  {
    var X := At(T, s);
    var Y := Level(X, col, ascending);
    var ks := Positions(X, col, ascending);
    var J := Pushed(X);
    PositionsFacts(X, col, ascending);
    PushedFacts(X);
    WeightOfChildren(T, s, Y, ks);
    SumSizesSame(Y.children, ks, X.children, J);
    SumBound(X.children, J, |X.children|);
    assert X.children[..|X.children|] == X.children;
  }

  lemma IncomparableChild(p: seq<nat>, s: seq<nat>, k: nat)
    requires Incomparable(p, s)
    ensures Incomparable(p, s + [k]) && Incomparable(s + [k], p)
  {
    assert |p| <= |s| ==> (s + [k])[..|p|] == s[..|p|];
    assert |s| + 1 <= |p| ==> p[..|s| + 1][..|s|] == p[..|s|];
    assert (s + [k])[..|s|] == s;
  }

  lemma SiblingsIncomparable(s: seq<nat>, a: nat, b: nat)
    requires a != b
    ensures Incomparable(s + [a], s + [b])
  {
    assert (s + [a])[|s|] != (s + [b])[|s|];
  }

  /** One pass keeps the stack well formed and makes it lighter. */
  lemma StackStep(T: Node, S: seq<seq<nat>>, s: seq<nat>, col: SortColumn, ascending: bool)
    requires SortStackOk(T, S + [s])
    ensures ValidPath(T, s)
    ensures var X := At(T, s); var T1 := Put(T, s, Level(X, col, ascending));
      var P := PushedPaths(s, Positions(X, col, ascending));
      SortStackOk(T1, S + P) && SortWeight(T1, S + P) < SortWeight(T, S + [s])
  {
    assert (S + [s])[|S|] == s;
    var X := At(T, s);
    var Y := Level(X, col, ascending);
    var T1 := Put(T, s, Y);
    var ks := Positions(X, col, ascending);
    var P := PushedPaths(s, ks);
    PositionsFacts(X, col, ascending);
    PushedLighter(T, s, col, ascending);
    forall i | 0 <= i < |S| ensures ValidPath(T, S[i]) && Incomparable(S[i], s) {
      assert (S + [s])[i] == S[i];
    }
    forall i | 0 <= i < |S| ensures ValidPath(T1, S[i]) {
      PutFacts(T, s, Y, S[i]);
    }
    forall m | 0 <= m < |P| ensures ValidPath(T1, P[m]) {
      PutChild(T, s, Y, ks[m], Y.children[ks[m]]);
    }
    var Q := S + P;
    forall i | 0 <= i < |Q| ensures ValidPath(T1, Q[i]) {
      if i >= |S| {
        assert Q[i] == P[i - |S|];
      }
    }
    forall i, j | 0 <= i < j < |Q| ensures Incomparable(Q[i], Q[j]) {
      if j < |S| {
        assert (S + [s])[i] == S[i] && (S + [s])[j] == S[j];
      } else if i < |S| {
        assert Q[j] == s + [ks[j - |S|]];
        IncomparableChild(S[i], s, ks[j - |S|]);
      } else {
        assert Q[i] == s + [ks[i - |S|]] && Q[j] == s + [ks[j - |S|]];
        SiblingsIncomparable(s, ks[i - |S|], ks[j - |S|]);
      }
    }
    WeightConcat(T1, S, P);
    WeightConcat(T, S, [s]);
    WeightOutside(T, s, Y, S);
    assert [s][..0] == [];
  }

  /** The paths pushed, as PushPaths computes them. */
  lemma PositionsAre(s: seq<nat>, X: Node, col: SortColumn, ascending: bool, next: seq<seq<nat>>)
    requires var cs := X.children; var L := SortStates(States(cs), cs, col, ascending);
      var F := Placed(L, |cs|, |L|); var J := Pushed(X);
      (forall t :: t in J ==> t in F) && |next| == |J| &&
      forall m :: 0 <= m < |J| ==> next[m] == s + [IndexOf(F, J[m])]
    ensures next == PushedPaths(s, Positions(X, col, ascending))
  {
  }

  // ---------------------------------------------------------------------
  // What a full sort promises

  /** sortItems' order among siblings: every page after every other item,
      and the other items ordered by the comparison. */
  predicate InSortOrder(cs: seq<Node>, col: SortColumn, ascending: bool)
  {
    (forall i, j :: 0 <= i < j < |cs| && cs[i].item.entry.kind == Page ==> cs[j].item.entry.kind == Page)
    && (forall i, j :: 0 <= i < j < |cs| && cs[j].item.entry.kind != Page ==>
          !Before(col, ascending, cs[j].item.entry, cs[i].item.entry))
  }

  /** The children of n are in order, and so, recursively, are those of
      every child sortItems descends into. */
  predicate SortedBelow(n: Node, col: SortColumn, ascending: bool)
    decreases n
  {
    InSortOrder(n.children, col, ascending)
    && forall c :: c in n.children && Eligible(c) ==> SortedBelow(c, col, ascending)
  }

  /** One pass leaves the children in sortItems' order. */
  lemma LevelInOrder(X: Node, col: SortColumn, ascending: bool)
    ensures InSortOrder(Level(X, col, ascending).children, col, ascending)
  {
    LevelOrder(X, col, ascending);
    var r := Level(X, col, ascending).children;
    var m := |NonPages(X.children)|;
    forall k | m <= k < |r| ensures r[k].item.entry.kind == Page {
      assert r[k] == r[m..][k - m];
    }
  }

  /** A sorted item keeps its own item and the number of its children. */
  lemma SortNodeTop(X: Node, col: SortColumn, ascending: bool)
    ensures SortNode(X, col, ascending).item == X.item
    ensures |SortNode(X, col, ascending).children| == |X.children|
  {
    LevelPermutation(X, col, ascending);
  }

  /** After sortItems every level it reaches is in order; a directory with
      fewer than two children is not descended into. */
  lemma {:induction false} SortNodeSorted(X: Node, col: SortColumn, ascending: bool)
    ensures SortedBelow(SortNode(X, col, ascending), col, ascending)
    decreases X
  {
    var N := Level(X, col, ascending).children;
    LevelPermutation(X, col, ascending);
    LevelInOrder(X, col, ascending);
    var R := SortNode(X, col, ascending);
    forall k | 0 <= k < |N| ensures R.children[k].item == N[k].item && (Eligible(R.children[k]) <==> Eligible(N[k])) {
      if Eligible(N[k]) {
        SortNodeTop(N[k], col, ascending);
      }
    }
    forall c | c in R.children && Eligible(c) ensures SortedBelow(c, col, ascending) {
      var k :| 0 <= k < |N| && R.children[k] == c;
      assert N[k] in multiset(X.children);
      SortNodeSorted(N[k], col, ascending);
    }
  }

  /** Sorting never reorders below a file or a page, nor below a
      directory with fewer than two children: those children of the result
      are children of the original, subtree and all. */
  lemma SortNodeKeeps(X: Node, col: SortColumn, ascending: bool)
    ensures forall c :: c in SortNode(X, col, ascending).children && !Eligible(c) ==> c in X.children
  {
    var N := Level(X, col, ascending).children;
    LevelPermutation(X, col, ascending);
    var R := SortNode(X, col, ascending);
    forall c | c in R.children && !Eligible(c) ensures c in X.children {
      var k :| 0 <= k < |N| && R.children[k] == c;
      if Eligible(N[k]) {
        SortNodeTop(N[k], col, ascending);
      }
      assert N[k] in multiset(X.children);
    }
  }

  /** Sorting keeps every flag clear: it only moves items, and restores the
      expanded flag of each item it moves. */
  lemma {:induction false} SortKeepsClear(X: Node, col: SortColumn, ascending: bool)
    requires forall c :: c in X.children ==> Clear(c)
    ensures forall c :: c in SortNode(X, col, ascending).children ==> Clear(c)
    decreases X
  {
    var N := Level(X, col, ascending).children;
    LevelPermutation(X, col, ascending);
    var R := SortNode(X, col, ascending);
    forall c | c in R.children ensures Clear(c) {
      var k :| 0 <= k < |N| && R.children[k] == c;
      assert N[k] in multiset(X.children);
      var d := N[k];
      assert Clear(d);
      if Eligible(d) {
        assert c == SortNode(d, col, ascending);
        SortKeepsClear(d, col, ascending);
        SortNodeTop(d, col, ascending);
      } else {
        assert c == d;
      }
    }
  }
}
