/** Where the children sortItems pushes end up once their level is sorted:
    they are pushed as items, so their position is looked up after the
    moves. */
module PushOrder {
  import opened Index
  import opened Tree
  import opened SortLevel
  import opened Reinsert

  lemma {:induction false} PushTagsMembers(L: seq<ItemState>, cs: seq<Node>)
    requires InRange(L, cs)
    ensures forall t :: t in PushTags(L, cs) <==> t in TagSet(L) && t < |cs| && Eligible(cs[t])
  {
    if L != [] {
      var n := |L| - 1;
      PushTagsMembers(L[..n], cs);
      TagsPrefix(L, n);
      assert L[..n + 1] == L;
    }
  }

  lemma {:induction false} PushTagsIncreasing(L: seq<ItemState>, cs: seq<Node>)
    requires InRange(L, cs)
    requires forall k, l :: 0 <= k < l < |L| ==> L[k].tag < L[l].tag
    ensures forall a, b :: 0 <= a < b < |PushTags(L, cs)| ==> PushTags(L, cs)[a] < PushTags(L, cs)[b]
  {
    if L != [] {
      var n := |L| - 1;
      var L0 := L[..n];
      PushTagsIncreasing(L0, cs);
      PushTagsMembers(L0, cs);
      var J0 := PushTags(L0, cs);
      forall a | 0 <= a < |J0| ensures J0[a] < L[n].tag {
        assert J0[a] in J0;
        var k :| 0 <= k < |L0| && L0[k].tag == J0[a];
      }
      var J := PushTags(L, cs);
      assert J == J0 + (if Eligible(cs[L[n].tag]) then [L[n].tag] else []);
      forall a, b | 0 <= a < b < |J| ensures J[a] < J[b] {
        if b < |J0| {
          assert J[a] == J0[a] && J[b] == J0[b];
          assert J0[a] < J0[b];
        } else {
          assert J[a] == J0[a] && J[b] == L[n].tag;
        }
      }
    }
  }

  /** After the moves each child sits at exactly one position. */
  lemma FinalDistinct(L: seq<ItemState>, n: nat)
    requires DistinctTags(L, n)
    ensures var F := Placed(L, n, |L|); forall a, b :: 0 <= a < b < |F| ==> F[a] != F[b]
  {
    assert L[..|L|] == L;
    var A := TagsOf(L);
    var R := Rest(n, TagSet(L));
    RestIncreasing(n, TagSet(L));
    forall a, b | 0 <= a < b < |A + R| ensures (A + R)[a] != (A + R)[b] {
      if b < |A| {
      } else if a < |A| {
        assert (A + R)[a] == L[a].tag;
        assert (A + R)[a] in TagSet(L);
        assert (A + R)[b] == R[b - |A|];
      } else {
        assert (A + R)[a] == R[a - |A|] && (A + R)[b] == R[b - |A|];
      }
    }
  }

  /** Every child that is not a page is among the moved ones. */
  lemma FinalHasNonPages(L: seq<ItemState>, n: nat, t: nat)
    requires t in TagSet(L)
    ensures t in Placed(L, n, |L|)
  {
    assert L[..|L|] == L;
    var k :| 0 <= k < |L| && L[k].tag == t;
    assert Placed(L, n, |L|)[k] == t;
  }

  /** The tags item_list's loop pushes: the non-page children that are
      directories with more than one child, in their original order. */
  function Pushed(X: Node): seq<nat>
  {
    PushTags(States(X.children), X.children)
  }

  lemma PushedFacts(X: Node)
    ensures var J := Pushed(X);
      (forall t: nat :: t in J <==> t < |X.children| && Eligible(X.children[t])) &&
      (forall a, b :: 0 <= a < b < |J| ==> J[a] < J[b])
  {
    var cs := X.children;
    var L := States(cs);
    var J := PushTags(L, cs);
    assert J == Pushed(X);
    PushTagsMembers(L, cs);
    PushTagsIncreasing(L, cs);
    assert forall a, b :: 0 <= a < b < |J| ==> J[a] < J[b];
    StatesTags(cs);
    forall t: nat | t < |cs| && Eligible(cs[t]) ensures t in TagSet(States(cs)) {
      assert t in NonPageTags(cs);
    }
  }

  /** Each pushed child is among the moved ones. */
  lemma PushedPlaced(X: Node, col: SortColumn, ascending: bool)
    ensures var cs := X.children; var L := SortStates(States(cs), cs, col, ascending);
      forall t :: t in Pushed(X) ==> t in Placed(L, |cs|, |L|)
  {
    var cs := X.children;
    var L := SortStates(States(cs), cs, col, ascending);
    PushedFacts(X);
    StatesTags(cs);
    TagSetPermutation(L, States(cs));
    forall t | t in Pushed(X) ensures t in Placed(L, |cs|, |L|) {
      FinalHasNonPages(L, |cs|, t);
    }
  }

  /** The positions, after the level is sorted, of the pushed children. */
  function Positions(X: Node, col: SortColumn, ascending: bool): (ks: seq<nat>)
    ensures |ks| == |Pushed(X)|
  {
    var cs := X.children;
    var L := SortStates(States(cs), cs, col, ascending);
    var F := Placed(L, |cs|, |L|);
    var J := Pushed(X);
    PushedPlaced(X, col, ascending);
    assert forall m :: 0 <= m < |J| ==> J[m] in F by {
      forall m | 0 <= m < |J| ensures J[m] in F {
        assert J[m] in J;
      }
    }
    seq(|J|, m requires 0 <= m < |J| => IndexOf(F, J[m]))
  }

  /** The pushed positions name the pushed children, each once, and are
      exactly the positions of the eligible children of the sorted level. */
  lemma PositionsFacts(X: Node, col: SortColumn, ascending: bool)
    ensures var N := Level(X, col, ascending).children;
      var ks := Positions(X, col, ascending); var J := Pushed(X);
      (forall m :: 0 <= m < |ks| ==> ks[m] < |N| && N[ks[m]] == X.children[J[m]]) &&
      (forall a, b :: 0 <= a < b < |ks| ==> ks[a] != ks[b]) &&
      (forall k :: 0 <= k < |N| ==> (Eligible(N[k]) <==> k in ks))
  {
    var ks := Positions(X, col, ascending);
    var N := Level(X, col, ascending).children;
    forall m | 0 <= m < |ks| ensures ks[m] < |N| && N[ks[m]] == X.children[Pushed(X)[m]] {
      PositionAt(X, col, ascending, m);
    }
    forall a, b | 0 <= a < b < |ks| ensures ks[a] != ks[b] {
      PositionsDistinct(X, col, ascending, a, b);
    }
    forall k | 0 <= k < |N| ensures Eligible(N[k]) <==> k in ks {
      PositionEligible(X, col, ascending, k);
    }
  }

  /** The m-th pushed child sits, after the moves, at the m-th position,
      and the position holds it in the tags of the final order. */
  lemma PositionAt(X: Node, col: SortColumn, ascending: bool, m: nat)
    requires m < |Positions(X, col, ascending)|
    ensures var cs := X.children; var L := SortStates(States(cs), cs, col, ascending);
      var ks := Positions(X, col, ascending);
      ks[m] < |Placed(L, |cs|, |L|)| && Placed(L, |cs|, |L|)[ks[m]] == Pushed(X)[m]
    ensures Positions(X, col, ascending)[m] < |Level(X, col, ascending).children|
    ensures Level(X, col, ascending).children[Positions(X, col, ascending)[m]] == X.children[Pushed(X)[m]]
  {
    var cs := X.children;
    var L := SortStates(States(cs), cs, col, ascending);
    LevelReached(X, col, ascending);
    PushedPlaced(X, col, ascending);
    assert Pushed(X)[m] in Pushed(X);
  }

  /** Two pushed children have different positions. */
  lemma PositionsDistinct(X: Node, col: SortColumn, ascending: bool, a: nat, b: nat)
    requires a < b < |Positions(X, col, ascending)|
    ensures Positions(X, col, ascending)[a] != Positions(X, col, ascending)[b]
  {
    PositionAt(X, col, ascending, a);
    PositionAt(X, col, ascending, b);
    PushedFacts(X);
  }

  /** A position of the sorted level holds an eligible child exactly when
      it is one of the pushed positions. */
  lemma PositionEligible(X: Node, col: SortColumn, ascending: bool, k: nat)
    requires k < |Level(X, col, ascending).children|
    ensures Eligible(Level(X, col, ascending).children[k]) <==> k in Positions(X, col, ascending)
  {
    var cs := X.children;
    var L := SortStates(States(cs), cs, col, ascending);
    var F := Placed(L, |cs|, |L|);
    var J := Pushed(X);
    var ks := Positions(X, col, ascending);
    var N := Level(X, col, ascending).children;
    LevelReached(X, col, ascending);
    SortedStates(cs, col, ascending);
    FinalDistinct(L, |cs|);
    PushedFacts(X);
    if Eligible(N[k]) {
      var t := F[k];
      assert N[k] == cs[t];
      assert t in J;
      var m :| 0 <= m < |J| && J[m] == t;
      PositionAt(X, col, ascending, m);
      assert ks[m] == k;
    }
    if k in ks {
      var m :| 0 <= m < |ks| && ks[m] == k;
      PositionAt(X, col, ascending, m);
      assert J[m] in J;
    }
  }
}
