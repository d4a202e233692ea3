/** The outline widget as a value: every item carries its index entry and
    the three view flags, and owns its child items.  An item is addressed by
    the child positions leading to it from the widget's invisible root; the
    empty path is the invisible root itself. */
module Tree {
  import opened Index

  datatype Item = Item(entry: Entry, hidden: bool, expanded: bool, selected: bool)

  datatype Node = Node(item: Item, children: seq<Node>)

  /** The invisible root holds no index entry; this placeholder is never read. */
  const RootItem := Item(Entry(Dir, "", "", 0, 0, 0, ""), false, false, false)

  // ---------------------------------------------------------------------
  // Paths

  predicate ValidPath(n: Node, p: seq<nat>)
    decreases p
  {
    p == [] || (p[0] < |n.children| && ValidPath(n.children[p[0]], p[1..]))
  }

  function At(n: Node, p: seq<nat>): Node
    requires ValidPath(n, p)
    decreases p
  {
    if p == [] then n else At(n.children[p[0]], p[1..])
  }

  /** The tree with the subtree at `p` replaced by `x`. */
  function Put(n: Node, p: seq<nat>, x: Node): Node
    requires ValidPath(n, p)
    decreases p
  {
    if p == [] then x
    else n.(children := n.children[p[0] := Put(n.children[p[0]], p[1..], x)])
  }

  predicate IsPrefix(a: seq<nat>, b: seq<nat>)
  {
    |a| <= |b| && b[..|a|] == a
  }

  function Parent(p: seq<nat>): seq<nat>
    requires p != []
  {
    p[..|p| - 1]
  }

  /** Validity and lookup split along a concatenated path. */
  lemma {:induction false} PathConcat(n: Node, p: seq<nat>, r: seq<nat>)
    ensures ValidPath(n, p + r) <==> ValidPath(n, p) && ValidPath(At(n, p), r)
    ensures ValidPath(n, p + r) ==> At(n, p + r) == At(At(n, p), r)
    decreases p
  {
    if p != [] {
      assert (p + r)[0] == p[0] && (p + r)[1..] == p[1..] + r;
      if p[0] < |n.children| {
        PathConcat(n.children[p[0]], p[1..], r);
      }
    } else {
      assert p + r == r;
    }
  }

  /** Every prefix of a valid path is valid. */
  lemma PrefixValid(n: Node, p: seq<nat>, k: nat)
    requires ValidPath(n, p) && k <= |p|
    ensures ValidPath(n, p[..k])
  {
    PathConcat(n, p[..k], p[k..]);
    assert p[..k] + p[k..] == p;
  }

  /** The child at position i of the item at p. */
  lemma ChildPath(n: Node, p: seq<nat>, i: nat)
    requires ValidPath(n, p)
    ensures ValidPath(n, p + [i]) <==> i < |At(n, p).children|
    ensures ValidPath(n, p + [i]) ==> At(n, p + [i]) == At(n, p).children[i]
  {
    PathConcat(n, p, [i]);
  }

  /** Replacing a subtree: paths outside it keep their validity and item;
      paths inside it lead into the new subtree. */
  lemma {:induction false} PutFacts(n: Node, p: seq<nat>, x: Node, q: seq<nat>)
    requires ValidPath(n, p)
    ensures !IsPrefix(p, q) ==> (ValidPath(Put(n, p, x), q) <==> ValidPath(n, q))
    ensures !IsPrefix(p, q) && ValidPath(n, q) ==> At(Put(n, p, x), q).item == At(n, q).item
    ensures !IsPrefix(p, q) && ValidPath(n, q) ==> |At(Put(n, p, x), q).children| == |At(n, q).children|
    ensures !IsPrefix(p, q) && !IsPrefix(q, p) && ValidPath(n, q) ==> At(Put(n, p, x), q) == At(n, q)
    ensures IsPrefix(p, q) ==> (ValidPath(Put(n, p, x), q) <==> ValidPath(x, q[|p|..]))
    ensures IsPrefix(p, q) && ValidPath(x, q[|p|..]) ==> At(Put(n, p, x), q) == At(x, q[|p|..])
    decreases p
  {
    if p != [] && q != [] && q[0] == p[0] && p[0] < |n.children| {
      PutFacts(n.children[p[0]], p[1..], x, q[1..]);
      assert IsPrefix(p, q) <==> IsPrefix(p[1..], q[1..]);
      assert IsPrefix(q, p) <==> IsPrefix(q[1..], p[1..]);
      assert IsPrefix(p, q) ==> q[|p|..] == q[1..][|p[1..]|..];
    } else if p == [] {
      assert q[|p|..] == q;
    }
  }

  /** The tree with the item at `p` replaced; the shape is unchanged. */
  function SetItem(n: Node, p: seq<nat>, it: Item): Node
    requires ValidPath(n, p)
  {
    Put(n, p, Node(it, At(n, p).children))
  }

  /** Setting one item changes that item and nothing else. */
  lemma {:induction false} SetItemFacts(n: Node, p: seq<nat>, it: Item)
    requires ValidPath(n, p)
    ensures forall q :: ValidPath(SetItem(n, p, it), q) <==> ValidPath(n, q)
    ensures forall q :: ValidPath(n, q) ==>
      At(SetItem(n, p, it), q).item == (if q == p then it else At(n, q).item)
      && |At(SetItem(n, p, it), q).children| == |At(n, q).children|
  {
    var x := Node(it, At(n, p).children);
    forall q
      ensures ValidPath(SetItem(n, p, it), q) <==> ValidPath(n, q)
      ensures ValidPath(n, q) ==>
        At(SetItem(n, p, it), q).item == (if q == p then it else At(n, q).item)
        && |At(SetItem(n, p, it), q).children| == |At(n, q).children|
    {
      PutFacts(n, p, x, q);
      if IsPrefix(p, q) {
        var r := q[|p|..];
        assert q == p + r;
        PathConcat(n, p, r);
        if r != [] {
          assert ValidPath(x, r) <==> ValidPath(At(n, p), r) by {
            assert x.children == At(n, p).children;
          }
          if ValidPath(x, r) {
            assert At(x, r) == At(At(n, p), r);
          }
        }
      }
    }
  }

  /** The tree with the hidden flag of the item at p set to b. */
  function SetHidden(n: Node, p: seq<nat>, b: bool): Node
    requires ValidPath(n, p)
  {
    SetItem(n, p, At(n, p).item.(hidden := b))
  }

  /** The tree with the selected flag of the item at p set to b. */
  function SetSelected(n: Node, p: seq<nat>, b: bool): Node
    requires ValidPath(n, p)
  {
    SetItem(n, p, At(n, p).item.(selected := b))
  }

  /** The tree with the expanded flag of the item at p set to b. */
  function SetExpanded(n: Node, p: seq<nat>, b: bool): Node
    requires ValidPath(n, p)
  {
    SetItem(n, p, At(n, p).item.(expanded := b))
  }

  /** The number of items in a subtree. */
  function Size(n: Node): nat
  {
    1 + SizeAll(n.children)
  }

  function SizeAll(cs: seq<Node>): nat
  {
    if cs == [] then 0 else SizeAll(cs[..|cs| - 1]) + Size(cs[|cs| - 1])
  }

  /** QTreeView::expandAll: every item below the invisible root that has
      children is expanded, except that a hidden item is not laid out, so
      neither it nor anything below it is touched. */
  function ExpandBelow(n: Node): Node
  {
    n.(children := seq(|n.children|, i requires 0 <= i < |n.children| => ExpandAll(n.children[i])))
  }

  function ExpandAll(n: Node): Node
    decreases n
  {
    if n.item.hidden then n
    else
      Node(n.item.(expanded := n.item.expanded || n.children != []),
           seq(|n.children|, i requires 0 <= i < |n.children| => ExpandAll(n.children[i])))
  }

  /** Neither n nor any item on the way from n to q is hidden. */
  predicate OpenWay(n: Node, q: seq<nat>)
    decreases q
  {
    !n.item.hidden && (q == [] || (q[0] < |n.children| && OpenWay(n.children[q[0]], q[1..])))
  }

  /** No item from the top level down to q is hidden. */
  ghost predicate ShownWay(n: Node, q: seq<nat>)
  {
    forall k :: 1 <= k <= |q| ==> ValidPath(n, q[..k]) && !At(n, q[..k]).item.hidden
  }

  /** expandAll keeps every item and every other flag, and expands exactly
      the items that have children and lie on an open way (those already
      expanded stay so). */
  lemma {:induction false} ExpandAllAt(n: Node, q: seq<nat>)
    ensures ValidPath(ExpandAll(n), q) <==> ValidPath(n, q)
    ensures ValidPath(n, q) ==>
      At(ExpandAll(n), q).item
        == At(n, q).item.(expanded := At(n, q).item.expanded || (At(n, q).children != [] && OpenWay(n, q)))
      && |At(ExpandAll(n), q).children| == |At(n, q).children|
    decreases q
  {
    if !n.item.hidden && q != [] && q[0] < |n.children| {
      ExpandAllAt(n.children[q[0]], q[1..]);
    }
  }

  /** The open way from a top-level item is the way with nothing hidden. */
  lemma {:induction false} OpenWayShown(n: Node, q: seq<nat>)
    requires q != [] && ValidPath(n, q)
    ensures OpenWay(n.children[q[0]], q[1..]) <==> ShownWay(n, q)
    decreases q
  {
    var c := n.children[q[0]];
    assert q[..1] == [q[0]];
    assert At(n, q[..1]) == c;
    if |q| > 1 {
      OpenWayShown(c, q[1..]);
      if ShownWay(n, q) {
        forall k | 1 <= k <= |q| - 1 ensures ValidPath(c, q[1..][..k]) && !At(c, q[1..][..k]).item.hidden {
          PrefixDown(n, q, k + 1);
        }
      }
      if OpenWay(c, q[1..]) {
        forall k | 1 <= k <= |q| ensures ValidPath(n, q[..k]) && !At(n, q[..k]).item.hidden {
          if k >= 2 {
            PrefixDown(n, q, k);
          }
        }
      }
    } else {
      assert q == q[..1];
    }
  }

  /** The first k steps of q from n are the first k - 1 steps of q[1..]
      from the child q[0]. */
  lemma PrefixDown(n: Node, q: seq<nat>, k: nat)
    requires ValidPath(n, q) && 1 <= k <= |q|
    ensures ValidPath(n.children[q[0]], q[1..][..k - 1]) && ValidPath(n, q[..k])
    ensures At(n, q[..k]) == At(n.children[q[0]], q[1..][..k - 1])
  {
    assert q[..k][0] == q[0] && q[..k][1..] == q[1..][..k - 1];
    PrefixValid(n.children[q[0]], q[1..], k - 1);
    PrefixValid(n, q, k);
  }

  lemma ExpandBelowAt(n: Node, q: seq<nat>)
    requires q != []
    ensures ValidPath(ExpandBelow(n), q) <==> ValidPath(n, q)
    ensures ValidPath(n, q) ==>
      At(ExpandBelow(n), q).item
        == At(n, q).item.(expanded := At(n, q).item.expanded || (At(n, q).children != [] && ShownWay(n, q)))
      && |At(ExpandBelow(n), q).children| == |At(n, q).children|
  {
    if q[0] < |n.children| {
      ExpandAllAt(n.children[q[0]], q[1..]);
      if ValidPath(n, q) {
        OpenWayShown(n, q);
      }
    }
  }

  // ---------------------------------------------------------------------
  // The shape of a tree: which paths exist and what entry sits at each.

  ghost predicate SameShape(a: Node, b: Node)
  {
    (forall q :: ValidPath(a, q) <==> ValidPath(b, q))
    && (forall q :: ValidPath(a, q) ==> At(a, q).item.entry == At(b, q).item.entry)
  }

  // ---------------------------------------------------------------------
  // Building the outline as a mirror of the index

  /** One item per index node, children in index order, all flags clear. */
  function Build(fi: FileIndex): Node
  {
    Node(Item(fi.entry, false, false, false), BuildAll(fi.children))
  }

  function BuildAll(cs: seq<FileIndex>): seq<Node>
  {
    seq(|cs|, i requires 0 <= i < |cs| => Build(cs[i]))
  }

  /** The built tree has exactly the positions of the index, the index's
      entry at each of them and every flag clear. */
  lemma {:induction false} BuildMirrors(fi: FileIndex, q: seq<nat>)
    ensures ValidPath(Build(fi), q) <==> IsPos(fi, q)
    ensures IsPos(fi, q) ==> At(Build(fi), q).item == Item(NodeAt(fi, q).entry, false, false, false)
    decreases q
  {
    if q != [] && q[0] < |fi.children| {
      BuildMirrors(fi.children[q[0]], q[1..]);
    }
  }

  /** The index an item tree describes (the inverse of Build). */
  function Strip(n: Node): FileIndex
  {
    FileIndex(n.item.entry, StripAll(n.children))
  }

  function StripAll(cs: seq<Node>): seq<FileIndex>
  {
    seq(|cs|, i requires 0 <= i < |cs| => Strip(cs[i]))
  }

  /** Building and then reading back gives the index unchanged. */
  lemma {:induction false} StripBuild(fi: FileIndex)
    ensures Strip(Build(fi)) == fi
    decreases fi
  {
    var b := Build(fi);
    assert b.children == BuildAll(fi.children);
    assert |b.children| == |fi.children|;
    assert |StripAll(b.children)| == |fi.children|;
    forall i | 0 <= i < |fi.children|
      ensures StripAll(b.children)[i] == fi.children[i]
    {
      assert b.children[i] == Build(fi.children[i]);
      StripBuild(fi.children[i]);
    }
    assert StripAll(b.children) == fi.children;
  }

  /** No item in the subtree is hidden, expanded or selected. */
  predicate Clear(n: Node)
    decreases n
  {
    !n.item.hidden && !n.item.expanded && !n.item.selected
    && forall c :: c in n.children ==> Clear(c)
  }

  /** A freshly built tree has every flag clear. */
  lemma {:induction false} BuildClear(fi: FileIndex)
    ensures Clear(Build(fi))
    decreases fi
  {
    var b := BuildAll(fi.children);
    forall c | c in b
      ensures Clear(c)
    {
      var i :| 0 <= i < |b| && b[i] == c;
      assert c == Build(fi.children[i]);
      BuildClear(fi.children[i]);
    }
  }

  /** No two children of any index node carry the same entry. */
  predicate DistinctSiblings(fi: FileIndex)
    decreases fi
  {
    (forall i, j :: 0 <= i < j < |fi.children| ==> fi.children[i].entry != fi.children[j].entry)
    && forall c :: c in fi.children ==> DistinctSiblings(c)
  }

  /** The entries of the items from the top level down to p: what the index
      pointer an item stores is resolved from. */
  function Chain(n: Node, p: seq<nat>): (c: seq<Entry>)
    requires ValidPath(n, p)
    ensures |c| == |p|
    decreases p
  {
    if p == [] then [] else [n.children[p[0]].item.entry] + Chain(n.children[p[0]], p[1..])
  }

  /** In a tree built from an index whose siblings are told apart by their
      entries, the entry chain of an item leads back to the index node the
      item was built from. */
  lemma {:induction false} ChainLocates(fi: FileIndex, p: seq<nat>)
    requires IsPos(fi, p) && DistinctSiblings(fi)
    ensures ValidPath(Build(fi), p) && Locate(fi, Chain(Build(fi), p)) == Some(p)
    decreases p
  {
    BuildMirrors(fi, p);
    if p != [] {
      var k := p[0];
      var c := fi.children[k];
      assert Build(fi).children[k] == Build(c);
      assert c in fi.children;
      ChainLocates(c, p[1..]);
      var chain := Chain(Build(fi), p);
      assert chain[0] == c.entry && chain[1..] == Chain(Build(c), p[1..]);
      assert FirstWith(fi.children, c.entry) == k;
      LocateCons(fi, chain, k, p[1..]);
      assert [k] + p[1..] == p;
    }
  }

  /** Locate goes down to the first child with the chain's first entry and
      goes on from there. */
  lemma LocateCons(fi: FileIndex, chain: seq<Entry>, k: nat, rest: seq<nat>)
    requires chain != [] && FirstWith(fi.children, chain[0]) == k && k < |fi.children|
    requires Locate(fi.children[k], chain[1..]) == Some(rest)
    ensures Locate(fi, chain) == Some([k] + rest)
  {
  }

  // ---------------------------------------------------------------------
  // Selection

  /** The item at p (not the invisible root) is selected. */
  ghost predicate SelectedAt(n: Node, p: seq<nat>)
  {
    p != [] && ValidPath(n, p) && At(n, p).item.selected
  }

  /** Qt's selection holds at most one item when it is only set through
      setItemSelected. */
  ghost predicate AtMostOneSelected(n: Node)
  {
    forall p, q :: SelectedAt(n, p) && SelectedAt(n, q) ==> p == q
  }

  /** The first selected item below `n` in pre-order (selectedTreeItem). */
  function FirstSelected(n: Node): (r: Option<seq<nat>>)
    ensures r.Some? ==> SelectedAt(n, r.value)
    ensures r.None? ==> forall q :: !SelectedAt(n, q)
    decreases n, 1
  {
    FirstSelectedFrom(n, 0)
  }

  function FirstSelectedFrom(n: Node, i: nat): (r: Option<seq<nat>>)
    requires i <= |n.children|
    ensures r.Some? ==> SelectedAt(n, r.value) && r.value[0] >= i
    ensures r.None? ==> forall q :: SelectedAt(n, q) ==> q[0] < i
    decreases n, 0, |n.children| - i
  {
    if i == |n.children| then None
    else if n.children[i].item.selected then Some([i])
    else match FirstSelected(n.children[i])
      case Some(r) =>
        assert ([i] + r)[1..] == r;
        Some([i] + r)
      case None =>
        var rest := FirstSelectedFrom(n, i + 1);
        forall q | q != [] && q[0] == i && ValidPath(n, q)
          ensures !At(n, q).item.selected
        {
          assert At(n, q) == At(n.children[i], q[1..]);
          if q[1..] != [] {
            assert !SelectedAt(n.children[i], q[1..]);
          }
        }
        rest
  }
}
