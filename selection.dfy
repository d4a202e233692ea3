/** setItemSelected: the tree states its three loops pass through, and what
    the selection looks like afterwards. */
module Selection {
  import opened Index
  import opened Tree

  /** Appends i in front of every path (the paths of a child, seen from its parent). */
  function Prepend(i: nat, ps: seq<seq<nat>>): (r: seq<seq<nat>>)
    ensures |r| == |ps| && forall k :: 0 <= k < |ps| ==> r[k] == [i] + ps[k]
  {
    seq(|ps|, k requires 0 <= k < |ps| => [i] + ps[k])
  }

  /** The path of child i followed by p, split back into its parts. */
  lemma ChildPathSplit(n: Node, i: nat, p: seq<nat>)
    requires i < |n.children|
    ensures ValidPath(n, [i] + p) <==> ValidPath(n.children[i], p)
    ensures ValidPath(n, [i] + p) ==> At(n, [i] + p) == At(n.children[i], p)
  {
    assert ([i] + p)[0] == i && ([i] + p)[1..] == p;
  }

  /** Every selected item below n, in pre-order (QTreeWidget::selectedItems). */
  function SelectedPaths(n: Node): (ps: seq<seq<nat>>)
    ensures forall p :: p in ps <==> SelectedAt(n, p)
    decreases n, 1
  {
    SelectedFrom(n, 0)
  }

  function SelectedFrom(n: Node, i: nat): (ps: seq<seq<nat>>)
    requires i <= |n.children|
    ensures forall p :: p in ps <==> SelectedAt(n, p) && p[0] >= i
    decreases n, 0, |n.children| - i
  {
    if i == |n.children| then []
    else
      var c := n.children[i];
      var own := if c.item.selected then [[i]] else [];
      var below := Prepend(i, SelectedPaths(c));
      var rest := SelectedFrom(n, i + 1);
      forall p | SelectedAt(n, p) && p[0] == i
        ensures p in own + below
      {
        ChildPathSplit(n, i, p[1..]);
        assert [i] + p[1..] == p;
        if p[1..] == [] {
          assert p == [i];
        } else {
          assert SelectedAt(c, p[1..]);
          var k :| 0 <= k < |SelectedPaths(c)| && SelectedPaths(c)[k] == p[1..];
          assert below[k] == p;
        }
      }
      forall p | p in own + below
        ensures SelectedAt(n, p) && p[0] == i
      {
        if p in below {
          var k :| 0 <= k < |below| && below[k] == p;
          ChildPathSplit(n, i, SelectedPaths(c)[k]);
        } else {
          ChildPathSplit(n, i, []);
        }
      }
      own + below + rest
  }

  // ---------------------------------------------------------------------
  // The three phases of setItemSelected

  /** The selected flag of q once the items in sel[..i] have been deselected. */
  ghost predicate DeselAt(T0: Node, T: Node, sel: seq<seq<nat>>, i: nat, q: seq<nat>)
    requires i <= |sel|
  {
    (ValidPath(T, q) <==> ValidPath(T0, q))
    && (ValidPath(T0, q) ==>
          At(T, q).item == At(T0, q).item.(selected := At(T0, q).item.selected && q !in sel[..i])
          && |At(T, q).children| == |At(T0, q).children|)
  }

  ghost predicate Deselecting(T0: Node, T: Node, sel: seq<seq<nat>>, i: nat)
    requires i <= |sel|
  {
    forall q :: DeselAt(T0, T, sel, i, q)
  }

  /** The selection is cleared and the items on the way from p up to a are expanded. */
  ghost predicate ExpandAt(T0: Node, T: Node, p: seq<nat>, a: seq<nat>, q: seq<nat>)
  {
    (ValidPath(T, q) <==> ValidPath(T0, q))
    && (ValidPath(T0, q) ==>
          At(T, q).item == At(T0, q).item.(
            selected := q == [] && At(T0, q).item.selected,
            expanded := At(T0, q).item.expanded || (q != [] && IsPrefix(q, p) && |a| <= |q| < |p|))
          && |At(T, q).children| == |At(T0, q).children|)
  }

  ghost predicate Expanding(T0: Node, T: Node, p: seq<nat>, a: seq<nat>)
  {
    forall q :: ExpandAt(T0, T, p, a, q)
  }

  /** After setItemSelected(p): p is the one selected item and is collapsed,
      every item above it up to the top level is expanded, and nothing else
      changed. */
  ghost predicate SelectedOnlyAt(T0: Node, T: Node, p: seq<nat>, q: seq<nat>)
  {
    (ValidPath(T, q) <==> ValidPath(T0, q))
    && (ValidPath(T0, q) ==>
          At(T, q).item == At(T0, q).item.(
            selected := if q == [] then At(T0, q).item.selected else q == p,
            expanded := if q == p then false
                        else At(T0, q).item.expanded || (q != [] && IsPrefix(q, p) && |q| < |p|))
          && |At(T, q).children| == |At(T0, q).children|)
  }

  ghost predicate Reselected(T0: Node, T: Node, p: seq<nat>)
  {
    forall q :: SelectedOnlyAt(T0, T, p, q)
  }

  lemma DeselectStart(T0: Node, sel: seq<seq<nat>>)
    ensures Deselecting(T0, T0, sel, 0)
  {
    forall q ensures DeselAt(T0, T0, sel, 0, q) {
      assert sel[..0] == [];
    }
  }

  lemma DeselectStep(T0: Node, T: Node, i: nat)
    requires i < |SelectedPaths(T0)| && Deselecting(T0, T, SelectedPaths(T0), i)
    ensures ValidPath(T, SelectedPaths(T0)[i])
    ensures Deselecting(T0, SetSelected(T, SelectedPaths(T0)[i], false), SelectedPaths(T0), i + 1)
  {
    var sel := SelectedPaths(T0);
    var p := sel[i];
    assert p in sel;
    assert DeselAt(T0, T, sel, i, p);
    SetItemFacts(T, p, At(T, p).item.(selected := false));
    var next := SetSelected(T, p, false);
    var j := i + 1;
    assert sel[..j] == sel[..i] + [p];
    forall q ensures DeselAt(T0, next, sel, j, q) {
      assert DeselAt(T0, T, sel, i, q);
    }
  }

  lemma ExpandStart(T0: Node, T: Node, p: seq<nat>)
    requires Deselecting(T0, T, SelectedPaths(T0), |SelectedPaths(T0)|)
    ensures Expanding(T0, T, p, p)
  {
    var sel := SelectedPaths(T0);
    forall q ensures ExpandAt(T0, T, p, p, q) {
      assert DeselAt(T0, T, sel, |sel|, q);
      assert sel[..|sel|] == sel;
    }
  }

  lemma ExpandStep(T0: Node, T: Node, p: seq<nat>, a: seq<nat>)
    requires Expanding(T0, T, p, a) && ValidPath(T0, p) && IsPrefix(a, p) && |a| > 1
    ensures ValidPath(T, Parent(a))
    ensures Expanding(T0, SetExpanded(T, Parent(a), true), p, Parent(a))
  {
    var b := Parent(a);
    PrefixValid(T0, p, |b|);
    assert p[..|b|] == b by { assert b == a[..|b|]; }
    assert ExpandAt(T0, T, p, a, b);
    SetItemFacts(T, b, At(T, b).item.(expanded := true));
    forall q ensures ExpandAt(T0, SetExpanded(T, b, true), p, b, q) {
      assert ExpandAt(T0, T, p, a, q);
      if q != [] && IsPrefix(q, p) && |q| == |b| {
        assert q == b;
      }
    }
  }

  /** The last step: p is selected, and collapsed when it was expanded. */
  function SelectAndCollapse(T: Node, p: seq<nat>): Node
    requires ValidPath(T, p)
  {
    var T1 := SetSelected(T, p, true);
    SetItemFacts(T, p, At(T, p).item.(selected := true));
    if At(T1, p).item.expanded then SetExpanded(T1, p, false) else T1
  }

  lemma SelectFinish(T0: Node, T: Node, p: seq<nat>, a: seq<nat>)
    requires Expanding(T0, T, p, a) && ValidPath(T0, p) && p != [] && |a| <= 1
    ensures ValidPath(T, p)
    ensures Reselected(T0, SelectAndCollapse(T, p), p)
  {
    assert ExpandAt(T0, T, p, a, p);
    var T1 := SetSelected(T, p, true);
    SetItemFacts(T, p, At(T, p).item.(selected := true));
    if At(T1, p).item.expanded {
      SetItemFacts(T1, p, At(T1, p).item.(expanded := false));
    }
    forall q ensures SelectedOnlyAt(T0, SelectAndCollapse(T, p), p, q) {
      assert ExpandAt(T0, T, p, a, q);
    }
  }

  // ---------------------------------------------------------------------
  // What the selection looks like afterwards

  /** After setItemSelected(p) the selected item is p and only p, and
      selectedTreeItem finds it. */
  lemma {:induction false} OnlyOneSelected(T0: Node, T: Node, p: seq<nat>)
    requires Reselected(T0, T, p) && ValidPath(T0, p) && p != []
    ensures forall q :: SelectedAt(T, q) <==> q == p
    ensures AtMostOneSelected(T)
    ensures FirstSelected(T) == Some(p)
  {
    forall q ensures SelectedAt(T, q) <==> q == p {
      assert SelectedOnlyAt(T0, T, p, q);
    }
  }

  /** After setItemSelected(p) every item above p up to the top level is
      expanded, p itself is collapsed, and no hidden flag or entry changed. */
  lemma {:induction false} PathToSelectionOpen(T0: Node, T: Node, p: seq<nat>)
    requires Reselected(T0, T, p) && ValidPath(T0, p) && p != []
    ensures forall k :: 1 <= k < |p| ==> ValidPath(T, p[..k]) && At(T, p[..k]).item.expanded
    ensures ValidPath(T, p) && !At(T, p).item.expanded
    ensures forall q :: ValidPath(T0, q) ==>
      ValidPath(T, q) && At(T, q).item.hidden == At(T0, q).item.hidden
      && At(T, q).item.entry == At(T0, q).item.entry
  {
    assert SelectedOnlyAt(T0, T, p, p);
    forall k | 1 <= k < |p|
      ensures ValidPath(T, p[..k]) && At(T, p[..k]).item.expanded
    {
      PrefixValid(T0, p, k);
      assert SelectedOnlyAt(T0, T, p, p[..k]);
    }
    forall q | ValidPath(T0, q)
      ensures ValidPath(T, q) && At(T, q).item.hidden == At(T0, q).item.hidden
      && At(T, q).item.entry == At(T0, q).item.entry
    {
      assert SelectedOnlyAt(T0, T, p, q);
    }
  }
}
