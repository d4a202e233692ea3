/** The reinsertion loop of sortItems: the children are named by their
    positions before the pass (tags), and item_list's items are moved one by
    one to the front. */
module Reinsert {
  import opened Index
  import opened Tree
  import opened SortLevel

  function TagsOf(L: seq<ItemState>): (t: seq<nat>)
    ensures |t| == |L| && forall k :: 0 <= k < |L| ==> t[k] == L[k].tag
  {
    seq(|L|, k requires 0 <= k < |L| => L[k].tag)
  }

  function TagSet(L: seq<ItemState>): set<nat>
  {
    set k | 0 <= k < |L| :: L[k].tag
  }

  predicate TagsBelow(t: seq<nat>, n: nat)
  {
    forall k :: 0 <= k < |t| ==> t[k] < n
  }

  /** The children the tags name, in the tags' order. */
  function TagNodes(t: seq<nat>, cs: seq<Node>): (r: seq<Node>)
    requires TagsBelow(t, |cs|)
    ensures |r| == |t| && forall k :: 0 <= k < |t| ==> r[k] == cs[t[k]]
  {
    seq(|t|, k requires 0 <= k < |t| => cs[t[k]])
  }

  /** The tags below n outside P, in increasing order: the children not yet
      moved, in the order the moves leave them. */
  function Rest(n: nat, P: set<nat>): (r: seq<nat>)
    ensures forall k :: 0 <= k < |r| ==> r[k] < n && r[k] !in P
  {
    if n == 0 then [] else Rest(n - 1, P) + (if n - 1 in P then [] else [n - 1])
  }

  /** QTreeWidgetItem::indexOfChild: the first position holding t. */
  function IndexOf(s: seq<nat>, t: nat): (k: nat)
    requires t in s
    ensures k < |s| && s[k] == t && forall j :: 0 <= j < k ==> s[j] != t
  {
    if s[0] == t then 0
    else
      assert s == [s[0]] + s[1..];
      IndexOf(s[1..], t) + 1
  }

  /** takeChild(oi) followed by insertChild(i, item). */
  function Move<T>(s: seq<T>, oi: nat, i: nat): (r: seq<T>)
    requires oi < |s| && i < |s|
    ensures |r| == |s|
  {
    var rest := s[..oi] + s[oi + 1..];
    rest[..i] + [s[oi]] + rest[i..]
  }

  /** The not-yet-moved tags are increasing, so no tag appears twice. */
  lemma {:induction false} RestIncreasing(n: nat, P: set<nat>)
    ensures forall k, l :: 0 <= k < l < |Rest(n, P)| ==> Rest(n, P)[k] < Rest(n, P)[l]
  {
    if n > 0 {
      RestIncreasing(n - 1, P);
    }
  }

  lemma {:induction false} RestAbove(m: nat, P: set<nat>, t: nat)
    requires t >= m
    ensures Rest(m, P + {t}) == Rest(m, P)
  {
    if m > 0 {
      RestAbove(m - 1, P, t);
    }
  }

  /** Taking tag t out of the not-yet-moved tags leaves those of P + {t}. */
  lemma {:induction false} RestRemove(n: nat, P: set<nat>, t: nat)
    requires t < n && t !in P
    ensures t in Rest(n, P)
    ensures var R := Rest(n, P); var k := IndexOf(R, t);
      R[..k] + R[k + 1..] == Rest(n, P + {t})
  {
    var m: nat := n - 1;
    if t == m {
      RestRemoveLast(m, P);
    } else {
      RestRemove(m, P, t);
      RestRemoveEarlier(m, P, t);
    }
  }

  lemma RestRemoveLast(m: nat, P: set<nat>)
    requires m !in P
    ensures m in Rest(m + 1, P)
    ensures var R := Rest(m + 1, P); var k := IndexOf(R, m);
      R[..k] + R[k + 1..] == Rest(m + 1, P + {m})
  {
    var R0 := Rest(m, P);
    var R := Rest(m + 1, P);
    RestAbove(m, P, m);
    assert R == R0 + [m];
    assert R[|R0|] == m;
    IndexOfFirst(R, m, |R0|);
    assert R[..|R0|] + R[|R0| + 1..] == R0;
    assert m in P + {m};
  }

  lemma RestRemoveEarlier(m: nat, P: set<nat>, t: nat)
    requires t < m && t !in P && t in Rest(m, P)
    requires Rest(m, P)[..IndexOf(Rest(m, P), t)] + Rest(m, P)[IndexOf(Rest(m, P), t) + 1..] == Rest(m, P + {t})
    ensures t in Rest(m + 1, P)
    ensures Rest(m + 1, P)[..IndexOf(Rest(m + 1, P), t)] + Rest(m + 1, P)[IndexOf(Rest(m + 1, P), t) + 1..]
            == Rest(m + 1, P + {t})
  {
    var R0 := Rest(m, P);
    var E := if m in P then [] else [m];
    var R := Rest(m + 1, P);
    assert R == R0 + E;
    var k := IndexOf(R0, t);
    assert R[k] == t;
    IndexOfFirst(R, t, k);
    DropAppend(R0, E, k);
    assert Rest(m + 1, P + {t}) == Rest(m, P + {t}) + E by {
      assert (m in P + {t}) == (m in P);
    }
  }

  lemma DropAppend(A: seq<nat>, E: seq<nat>, k: nat)
    requires k < |A|
    ensures (A + E)[..k] + (A + E)[k + 1..] == A[..k] + A[k + 1..] + E
  {
    assert (A + E)[..k] == A[..k];
    assert (A + E)[k + 1..] == A[k + 1..] + E;
  }

  lemma IndexOfFirst(s: seq<nat>, t: nat, k: nat)
    requires k < |s| && s[k] == t && forall j :: 0 <= j < k ==> s[j] != t
    ensures IndexOf(s, t) == k
  {
  }

  // ---------------------------------------------------------------------
  // One move of the loop

  lemma IndexOfAfter(A: seq<nat>, R: seq<nat>, t: nat)
    requires t in R && t !in A
    ensures t in A + R && IndexOf(A + R, t) == |A| + IndexOf(R, t)
  {
    var k := IndexOf(R, t);
    assert (A + R)[|A| + k] == t;
    IndexOfFirst(A + R, t, |A| + k);
  }

  /** Moving the item at |A| + k of A + R to position |A|. */
  lemma MoveToPlace<T>(A: seq<T>, R: seq<T>, k: nat)
    requires k < |R|
    ensures Move(A + R, |A| + k, |A|) == A + [R[k]] + (R[..k] + R[k + 1..])
  {
    var cur := A + R;
    var rest := cur[..|A| + k] + cur[|A| + k + 1..];
    assert cur[..|A| + k] == A + R[..k];
    assert cur[|A| + k + 1..] == R[k + 1..];
    assert rest[..|A|] == A;
    assert rest[|A|..] == R[..k] + R[k + 1..];
  }

  /** takeChild detaches the item, which collapses it; insertChild puts it
      back and setExpanded restores the flag item_list recorded. */
  lemma MoveRestore(K: seq<Node>, oi: nat, i: nat, e: bool)
    requires oi < |K| && i < |K| && K[oi].item.expanded == e
    ensures var rest := K[..oi] + K[oi + 1..];
      var item := K[oi].(item := K[oi].item.(expanded := false));
      var ins := rest[..i] + [item] + rest[i..];
      ins[i := ins[i].(item := ins[i].item.(expanded := e))] == Move(K, oi, i)
  {
    var rest := K[..oi] + K[oi + 1..];
    var item := K[oi].(item := K[oi].item.(expanded := false));
    var ins := rest[..i] + [item] + rest[i..];
    assert ins[i] == item;
    assert item.(item := item.item.(expanded := e)) == K[oi];
  }

  /** Moving an item to where it is changes nothing. */
  lemma MoveInPlace<T>(s: seq<T>, i: nat)
    requires i < |s|
    ensures Move(s, i, i) == s
  {
    var rest := s[..i] + s[i + 1..];
    assert rest[..i] == s[..i] && rest[i..] == s[i + 1..];
    assert s == s[..i] + [s[i]] + s[i + 1..];
  }

  /** The position of s that Move(s, oi, i) places at k. */
  function MoveSource(oi: nat, i: nat, k: nat): nat
  {
    if k == i then oi
    else
      var r := if k < i then k else k - 1;
      if r < oi then r else r + 1
  }

  lemma MoveAt<T>(s: seq<T>, oi: nat, i: nat, k: nat)
    requires oi < |s| && i < |s| && k < |s|
    ensures MoveSource(oi, i, k) < |s| && Move(s, oi, i)[k] == s[MoveSource(oi, i, k)]
  {
    var rest := s[..oi] + s[oi + 1..];
    assert Move(s, oi, i) == rest[..i] + [s[oi]] + rest[i..];
    if k != i {
      var r := if k < i then k else k - 1;
      assert Move(s, oi, i)[k] == rest[r];
    }
  }

  lemma TagNodesMove(cur: seq<nat>, cs: seq<Node>, oi: nat, i: nat)
    requires TagsBelow(cur, |cs|)
    requires oi < |cur| && i < |cur|
    ensures TagsBelow(Move(cur, oi, i), |cs|)
    ensures TagNodes(Move(cur, oi, i), cs) == Move(TagNodes(cur, cs), oi, i)
  {
    var m := Move(cur, oi, i);
    var A := TagNodes(cur, cs);
    forall k | 0 <= k < |cur| ensures m[k] == cur[MoveSource(oi, i, k)] {
      MoveAt(cur, oi, i, k);
    }
    var B := Move(A, oi, i);
    forall k | 0 <= k < |cur| ensures B[k] == A[MoveSource(oi, i, k)] {
      MoveAt(A, oi, i, k);
    }
  }

  // ---------------------------------------------------------------------
  // Where the loop ends

  /** The tags of the children that are not pages. */
  function NonPageTags(cs: seq<Node>): set<nat>
  {
    set i | 0 <= i < |cs| && cs[i].item.entry.kind != Page
  }

  lemma {:induction false} StatesTags(cs: seq<Node>)
    ensures TagSet(States(cs)) == NonPageTags(cs)
  {
    if cs != [] {
      var n := |cs| - 1;
      StatesTags(cs[..n]);
      var L0 := States(cs[..n]);
      forall i ensures i in NonPageTags(cs) <==> i in NonPageTags(cs[..n]) || (i == n && cs[n].item.entry.kind != Page) {
        if 0 <= i < n {
          assert cs[..n][i] == cs[i];
        }
      }
      if cs[n].item.entry.kind == Page {
        assert States(cs) == L0;
      } else {
        var x := ItemState(n, cs[n].item.expanded);
        assert States(cs) == L0 + [x];
        forall i ensures i in TagSet(L0 + [x]) <==> i in TagSet(L0) || i == n {
          if i in TagSet(L0) {
            var k :| 0 <= k < |L0| && L0[k].tag == i;
            assert (L0 + [x])[k].tag == i;
          }
          if i == n {
            assert (L0 + [x])[|L0|].tag == i;
          }
        }
      }
    }
  }

  lemma TagSetPermutation(L1: seq<ItemState>, L2: seq<ItemState>)
    requires multiset(L1) == multiset(L2)
    ensures TagSet(L1) == TagSet(L2)
  {
    forall i | i in TagSet(L1) ensures i in TagSet(L2) {
      var k :| 0 <= k < |L1| && L1[k].tag == i;
      assert L1[k] in multiset(L2);
      var j :| 0 <= j < |L2| && L2[j] == L1[k];
    }
    forall i | i in TagSet(L2) ensures i in TagSet(L1) {
      var k :| 0 <= k < |L2| && L2[k].tag == i;
      assert L2[k] in multiset(L1);
      var j :| 0 <= j < |L1| && L1[j] == L2[k];
    }
  }

  /** The children left where they were, once every non-page child has
      been moved, are the pages in their order. */
  lemma {:induction false} RestArePages(cs: seq<Node>, m: nat)
    requires m <= |cs|
    ensures TagNodes(Rest(m, NonPageTags(cs)), cs) == Pages(cs[..m])
  {
    if m > 0 {
      RestArePages(cs, m - 1);
      assert cs[..m][..m - 1] == cs[..m - 1];
      assert (m - 1 in NonPageTags(cs)) == (cs[m - 1].item.entry.kind != Page);
    }
  }

  lemma DistinctCount<T>(s: seq<T>)
    requires forall i, j :: 0 <= i < j < |s| ==> s[i] != s[j]
    ensures forall v :: multiset(s)[v] <= 1
  {
    if s != [] {
      var n := |s| - 1;
      DistinctCount(s[..n]);
      assert s == s[..n] + [s[n]];
      assert s[n] !in s[..n];
    }
  }

  lemma CountTwo<T>(s: seq<T>, i: nat, j: nat)
    ensures i < j < |s| && s[i] == s[j] ==> multiset(s)[s[i]] >= 2
  {
    if i < j < |s| && s[i] == s[j] {
      assert s == s[..i] + [s[i]] + s[i + 1..j] + [s[j]] + s[j + 1..];
    }
  }

  /** item_list holds each child at most once, also after sorting. */
  lemma SortedTagsDistinct(cs: seq<Node>, col: SortColumn, ascending: bool)
    ensures var L := SortStates(States(cs), cs, col, ascending);
      forall i, j :: 0 <= i < j < |L| ==> L[i].tag != L[j].tag
  {
    var S := States(cs);
    var L := SortStates(S, cs, col, ascending);
    DistinctCount(S);
    forall k | 0 <= k < |L| ensures L[k] == ItemState(L[k].tag, cs[L[k].tag].item.expanded) {
      assert L[k] in multiset(S);
      var j :| 0 <= j < |S| && S[j] == L[k];
    }
    forall i, j | 0 <= i < j < |L| ensures L[i].tag != L[j].tag {
      CountTwo(L, i, j);
    }
  }

  // ---------------------------------------------------------------------
  // The loop, step by step

  /** The order of the children (as tags) once the first i items of L,
      the sorted item_list over n children, have been moved into place. */
  function Placed(L: seq<ItemState>, n: nat, i: nat): seq<nat>
    requires i <= |L|
  {
    TagsOf(L[..i]) + Rest(n, TagSet(L[..i]))
  }

  predicate DistinctTags(L: seq<ItemState>, n: nat)
  {
    (forall k :: 0 <= k < |L| ==> L[k].tag < n) &&
    (forall k, l :: 0 <= k < l < |L| ==> L[k].tag != L[l].tag)
  }

  lemma TagsPrefix(L: seq<ItemState>, i: nat)
    requires i < |L|
    ensures TagsOf(L[..i + 1]) == TagsOf(L[..i]) + [L[i].tag]
    ensures TagSet(L[..i + 1]) == TagSet(L[..i]) + {L[i].tag}
  {
    var P := L[..i + 1];
    assert P == L[..i] + [L[i]];
    forall v ensures v in TagSet(P) <==> v in TagSet(L[..i]) || v == L[i].tag {
      if v in TagSet(P) {
        var k :| 0 <= k < |P| && P[k].tag == v;
        if k < i {
          assert L[..i][k] == P[k];
        }
      }
      if v in TagSet(L[..i]) {
        var k :| 0 <= k < i && L[..i][k].tag == v;
        assert P[k] == L[..i][k];
      }
      if v == L[i].tag {
        assert P[i] == L[i];
      }
    }
  }

  /** Before any move every child is where it was. */
  lemma PlacedNone(L: seq<ItemState>, n: nat)
    ensures Placed(L, n, 0) == seq(n, k => k)
  {
    assert L[..0] == [] && TagSet(L[..0]) == {};
    RestAll(n);
  }

  /** Before any move the children are where they were. */
  lemma {:induction false} RestAll(n: nat)
    ensures Rest(n, {}) == seq(n, k => k)
  {
    if n > 0 {
      RestAll(n - 1);
    }
  }

  /** Moving t, found among the not-yet-moved tags R, to the end of the
      moved ones A. */
  lemma MoveStep(A: seq<nat>, R: seq<nat>, R2: seq<nat>, t: nat)
    requires t in R && t !in A && R2 == R[..IndexOf(R, t)] + R[IndexOf(R, t) + 1..]
    ensures t in A + R && |A| <= IndexOf(A + R, t) && |A| < |A + R|
    ensures Move(A + R, IndexOf(A + R, t), |A|) == A + [t] + R2
    ensures IndexOf(A + R, t) == |A| ==> A + R == A + [t] + R2
  {
    IndexOfAfter(A, R, t);
    MoveFrom(A, R, R2, t, IndexOf(R, t));
  }

  /** MoveStep with the position k of t among R given. */
  lemma MoveFrom(A: seq<nat>, R: seq<nat>, R2: seq<nat>, t: nat, k: nat)
    requires k < |R| && R[k] == t && R2 == R[..k] + R[k + 1..]
    ensures Move(A + R, |A| + k, |A|) == A + [t] + R2
    ensures k == 0 ==> A + R == A + [t] + R2
  {
    MoveToPlace(A, R, k);
    if k == 0 {
      AlreadyFirst(A, R, R2, t);
    }
  }

  lemma AlreadyFirst(A: seq<nat>, R: seq<nat>, R2: seq<nat>, t: nat)
    requires 0 < |R| && R[0] == t && R2 == R[..0] + R[1..]
    ensures A + R == A + [t] + R2
  {
    assert R == [t] + R2;
  }

  lemma PlacedBelow(L: seq<ItemState>, n: nat, i: nat)
    requires i <= |L| && DistinctTags(L, n)
    ensures TagsBelow(Placed(L, n, i), n)
  {
    var A := TagsOf(L[..i]);
    var R := Rest(n, TagSet(L[..i]));
    forall j | 0 <= j < |A + R| ensures (A + R)[j] < n {
      if j < |A| {
        assert (A + R)[j] == L[j].tag;
      } else {
        assert (A + R)[j] == R[j - |A|];
      }
    }
  }

  /** Moving the i-th item of L: it is found at or after position i, and
      once taken out and inserted at i the order is the one with i + 1
      items placed.  An item already at i stays. */
  lemma PlaceNext(L: seq<ItemState>, n: nat, i: nat)
    requires i < |L| && DistinctTags(L, n)
    ensures var cur := Placed(L, n, i); var t := L[i].tag;
      t in cur && i < |cur| && TagsBelow(cur, n) && TagsBelow(Placed(L, n, i + 1), n) &&
      Move(cur, IndexOf(cur, t), i) == Placed(L, n, i + 1) &&
      (IndexOf(cur, t) == i ==> cur == Placed(L, n, i + 1))
  {
    var t := L[i].tag;
    var P := TagSet(L[..i]);
    NotYetPlaced(L, n, i);
    RestRemove(n, P, t);
    TagsPrefix(L, i);
    MoveStep(TagsOf(L[..i]), Rest(n, P), Rest(n, P + {t}), t);
    PlacedBelow(L, n, i);
    PlacedBelow(L, n, i + 1);
  }

  lemma NotYetPlaced(L: seq<ItemState>, n: nat, i: nat)
    requires i < |L| && DistinctTags(L, n)
    ensures L[i].tag < n && L[i].tag !in TagSet(L[..i]) && L[i].tag !in TagsOf(L[..i])
  {
    var t := L[i].tag;
    forall k | 0 <= k < i ensures L[..i][k].tag != t {
      assert L[..i][k] == L[k];
    }
  }

  /** The sorted item_list names each child once and keeps each flag. */
  lemma SortedStates(cs: seq<Node>, col: SortColumn, ascending: bool)
    ensures var L := SortStates(States(cs), cs, col, ascending);
      DistinctTags(L, |cs|) &&
      forall k :: 0 <= k < |L| ==> L[k].expanded == cs[L[k].tag].item.expanded
  {
    var S := States(cs);
    var L := SortStates(S, cs, col, ascending);
    SortedTagsDistinct(cs, col, ascending);
    forall k | 0 <= k < |L| ensures L[k].expanded == cs[L[k].tag].item.expanded {
      assert L[k] in multiset(S);
      var j :| 0 <= j < |S| && S[j] == L[k];
    }
  }

  /** Where the loop ends: the moved items in item_list's order, then the
      children never moved (the pages) in their order. */
  lemma PlacedAll(L: seq<ItemState>, cs: seq<Node>)
    requires InRange(L, cs) && TagSet(L) == NonPageTags(cs)
    ensures TagsBelow(Placed(L, |cs|, |L|), |cs|)
    ensures TagNodes(Placed(L, |cs|, |L|), cs) == Nodes(L, cs) + Pages(cs)
  {
    assert L[..|L|] == L;
    var A := TagsOf(L);
    var R := Rest(|cs|, TagSet(L));
    assert TagsBelow(A, |cs|);
    assert TagsBelow(R, |cs|);
    TagNodesConcat(A, R, cs);
    RestArePages(cs, |cs|);
    assert cs[..|cs|] == cs;
    assert TagNodes(A, cs) == Nodes(L, cs);
  }

  lemma TagNodesConcat(A: seq<nat>, R: seq<nat>, cs: seq<Node>)
    requires TagsBelow(A, |cs|) && TagsBelow(R, |cs|)
    ensures TagsBelow(A + R, |cs|)
    ensures TagNodes(A + R, cs) == TagNodes(A, cs) + TagNodes(R, cs)
  {
    forall j | 0 <= j < |A + R| ensures (A + R)[j] < |cs| {
      if j >= |A| {
        assert (A + R)[j] == R[j - |A|];
      }
    }
  }

  lemma LevelReached(X: Node, col: SortColumn, ascending: bool)
    ensures var L := SortStates(States(X.children), X.children, col, ascending);
      TagsBelow(Placed(L, |X.children|, |L|), |X.children|) &&
      TagNodes(Placed(L, |X.children|, |L|), X.children) == Level(X, col, ascending).children
  {
    var cs := X.children;
    var S := States(cs);
    var L := SortStates(S, cs, col, ascending);
    TagSetPermutation(L, S);
    StatesTags(cs);
    PlacedAll(L, cs);
  }
}
