/** Looking items up in the outline: the file an item belongs to, and the
    item of a given kind, page and anchor inside a file. */
module Search {
  import opened Index
  import opened Tree

  /** What setCurrentIndex looks for. */
  datatype Query = Query(kind: Kind, path: string, page: int, anchor: string)

  function KindOf(T: Node, q: seq<nat>): Kind
    requires ValidPath(T, q)
  {
    At(T, q).item.entry.kind
  }

  // ---------------------------------------------------------------------
  // treeItemToFileIndex

  /** The nearest item at or above q, up to the top level, whose entry is a
      file; the invisible root is never reached. */
  function NearestFile(T: Node, q: seq<nat>): (r: Option<seq<nat>>)
    requires ValidPath(T, q)
    ensures r.Some? ==> r.value != [] && IsPrefix(r.value, q) && ValidPath(T, r.value)
                        && KindOf(T, r.value) == File
                        && forall k :: |r.value| < k <= |q| ==> ValidPath(T, q[..k]) && KindOf(T, q[..k]) != File
    ensures r.None? ==> forall k :: 1 <= k <= |q| ==> ValidPath(T, q[..k]) && KindOf(T, q[..k]) != File
    decreases |q|
  {
    if q == [] then None
    else if KindOf(T, q) == File then
      assert q[..|q|] == q;
      Some(q)
    else
      PrefixValid(T, q, |q| - 1);
      var up := NearestFile(T, Parent(q));
      forall k | 1 <= k < |q| ensures q[..k] == Parent(q)[..k] && ValidPath(T, q[..k]) {
        PrefixValid(T, q, k);
      }
      assert q[..|q|] == q;
      up
  }

  // ---------------------------------------------------------------------
  // findTreeWidgetItem

  /** The item at r satisfies the query's page, anchor and file path; an
      item with no file above it is accepted on page and anchor alone. */
  predicate Accepts(T: Node, r: seq<nat>, Q: Query)
    requires ValidPath(T, r)
  {
    var e := At(T, r).item.entry;
    e.page == Q.page && (Q.anchor == [] || e.anchor == Q.anchor)
    && match NearestFile(T, r)
       case None => true
       case Some(f) => At(T, f).item.entry.path == Q.path
  }

  /** r is an answer for a search started at q: an item of the requested
      kind at or below q that the query accepts, with no item of that kind
      on the way down from q (the search never descends below one). */
  ghost predicate Hit(T: Node, q: seq<nat>, r: seq<nat>, Q: Query)
  {
    r != [] && IsPrefix(q, r) && ValidPath(T, r)
    && KindOf(T, r) == Q.kind && Accepts(T, r, Q)
    && forall k :: (if |q| == 0 then 1 else |q|) <= k < |r| ==>
         ValidPath(T, r[..k]) && KindOf(T, r[..k]) != Q.kind
  }

  /** a comes before b in pre-order, neither being a prefix of the other. */
  predicate Precedes(a: seq<nat>, b: seq<nat>)
  {
    a != [] && b != [] && (a[0] < b[0] || (a[0] == b[0] && Precedes(a[1..], b[1..])))
  }

  lemma {:induction false} PrecedesAt(a: seq<nat>, b: seq<nat>, k: nat)
    requires k < |a| && k < |b| && a[..k] == b[..k] && a[k] < b[k]
    ensures Precedes(a, b)
    decreases k
  {
    if k > 0 {
      assert a[0] == a[..k][0] && b[0] == b[..k][0];
      assert a[1..][..k - 1] == a[..k][1..] && b[1..][..k - 1] == b[..k][1..];
      PrecedesAt(a[1..], b[1..], k - 1);
    }
  }

  /** findTreeWidgetItem(q): the first hit in pre-order below q.  At the
      invisible root (q == []) there is no index to read and the answer is
      always None. */
  function FindAt(T: Node, q: seq<nat>, Q: Query): (r: Option<seq<nat>>)
    requires ValidPath(T, q)
    ensures q == [] ==> r.None?
    ensures r.Some? ==> Hit(T, q, r.value, Q)
    ensures r.None? && q != [] ==> forall x :: !Hit(T, q, x, Q)
    ensures r.Some? ==> forall x :: Hit(T, q, x, Q) ==> x == r.value || Precedes(r.value, x)
    decreases At(T, q), 1
  {
    if q == [] then None
    else if KindOf(T, q) != Q.kind then
      forall x | Hit(T, q, x, Q) ensures |x| > |q| {
        assert x[..|x|] == x;
      }
      FindFrom(T, q, 0, Q)
    else if Accepts(T, q, Q) then
      Some(q)
    else
      forall x ensures Hit(T, q, x, Q) ==> x == q {
        HitBelowOtherKind(T, q, x, Q);
        if Hit(T, q, x, Q) && |x| == |q| {
          assert x == x[..|q|];
        }
      }
      None
  }

  /** The children loop of findTreeWidgetItem from child i on. */
  function FindFrom(T: Node, q: seq<nat>, i: nat, Q: Query): (r: Option<seq<nat>>)
    requires ValidPath(T, q) && i <= |At(T, q).children|
    requires q == [] || KindOf(T, q) != Q.kind
    ensures r.Some? ==> Hit(T, q, r.value, Q) && |r.value| > |q| && r.value[|q|] >= i
    ensures r.None? ==> forall x :: Hit(T, q, x, Q) && |x| > |q| ==> x[|q|] < i
    ensures r.Some? ==> forall x :: Hit(T, q, x, Q) && |x| > |q| && x[|q|] >= i ==>
                                     x == r.value || Precedes(r.value, x)
    decreases At(T, q), 0, |At(T, q).children| - i
  {
    if i == |At(T, q).children| then
      forall x | Hit(T, q, x, Q) && |x| > |q| ensures x[|q|] < i {
        PrefixValid(T, x, |q| + 1);
        assert x[..|q| + 1] == q + [x[|q|]];
        ChildPath(T, q, x[|q|]);
      }
      None
    else
      ChildPath(T, q, i);
      var c := q + [i];
      match FindAt(T, c, Q)
      case Some(x) =>
        HitOfChild(T, q, i, x, Q);
        forall y | Hit(T, q, y, Q) && |y| > |q| && y[|q|] >= i
          ensures y == x || Precedes(x, y)
        {
          if y[|q|] == i {
            HitInChild(T, q, i, y, Q);
          } else {
            assert x[..|q|] == q == y[..|q|];
            PrecedesAt(x, y, |q|);
          }
        }
        Some(x)
      case None =>
        forall y | Hit(T, q, y, Q) && |y| > |q| ensures y[|q|] != i {
          if y[|q|] == i {
            HitInChild(T, q, i, y, Q);
          }
        }
        FindFrom(T, q, i + 1, Q)
  }

  /** A hit strictly below a top-level or deeper item q means q is not of
      the requested kind. */
  lemma HitBelowOtherKind(T: Node, q: seq<nat>, x: seq<nat>, Q: Query)
    ensures q != [] && Hit(T, q, x, Q) && |x| > |q| ==> ValidPath(T, q) && KindOf(T, q) != Q.kind
  {
    if q != [] && Hit(T, q, x, Q) && |x| > |q| {
      assert x[..|q|] == q;
      assert ValidPath(T, x[..|q|]) && KindOf(T, x[..|q|]) != Q.kind;
    }
  }

  /** A hit below child i of q is a hit below q, when q is not itself of
      the requested kind. */
  lemma HitOfChild(T: Node, q: seq<nat>, i: nat, x: seq<nat>, Q: Query)
    requires ValidPath(T, q) && (q == [] || KindOf(T, q) != Q.kind)
    requires Hit(T, q + [i], x, Q)
    ensures Hit(T, q, x, Q) && |x| > |q| && x[|q|] == i
  {
    var c := q + [i];
    assert x[..|c|] == c;
    assert x[..|q|] == q by { assert x[..|q|] == x[..|c|][..|q|]; }
    if q != [] {
      assert ValidPath(T, x[..|q|]);
    }
  }

  /** A hit below q that passes through child i is a hit below that child. */
  lemma HitInChild(T: Node, q: seq<nat>, i: nat, y: seq<nat>, Q: Query)
    requires Hit(T, q, y, Q) && |y| > |q| && y[|q|] == i
    ensures Hit(T, q + [i], y, Q)
  {
    var c := q + [i];
    assert y[..|q|] == q;
    assert y[..|c|] == y[..|q|] + [y[|q|]];
  }

  // ---------------------------------------------------------------------
  // setCurrentIndex: which item it selects

  /** The tree-wide search as evidently intended: every top-level item in
      turn, as if the invisible root carried an index of another kind. */
  function FindAll(T: Node, Q: Query): (r: Option<seq<nat>>)
    ensures r.Some? ==> Hit(T, [], r.value, Q)
    ensures r.None? ==> forall x :: !Hit(T, [], x, Q)
    ensures r.Some? ==> forall x :: Hit(T, [], x, Q) ==> x == r.value || Precedes(r.value, x)
  {
    FindFrom(T, [], 0, Q)
  }

  /** The three tiers of setCurrentIndex as written: below the selected item,
      then from the invisible root for a page, then for a file.  The last two
      start at the invisible root, where findTreeWidgetItem gives up at once. */
  function CurrentTargetAsWritten(T: Node, sel: Option<seq<nat>>, path: string, pn: int, anchor: string)
    : (r: Option<seq<nat>>)
    requires sel.Some? ==> ValidPath(T, sel.value)
    ensures r.Some? ==> sel.Some? && Hit(T, sel.value, r.value, Query(Page, path, pn, anchor))
  {
    var first := if sel.None? then None else FindAt(T, sel.value, Query(Page, path, pn, anchor));
    var second := if first.Some? then first else FindAt(T, [], Query(Page, path, pn, anchor));
    if second.Some? then second else FindAt(T, [], Query(File, path, pn, anchor))
  }

  /** r is the first hit below q in pre-order. */
  ghost predicate FirstHit(T: Node, q: seq<nat>, r: seq<nat>, Q: Query)
  {
    Hit(T, q, r, Q) && forall x :: Hit(T, q, x, Q) ==> x == r || Precedes(r, x)
  }

  /** The three tiers with the tree-wide ones searching the top-level items:
      the first matching page below the selected item, else the first
      matching page in the tree, else the first matching file.  A matching
      page anywhere is always preferred to a file. */
  function CurrentTarget(T: Node, sel: Option<seq<nat>>, path: string, pn: int, anchor: string)
    : (r: Option<seq<nat>>)
    requires sel.Some? ==> ValidPath(T, sel.value)
    ensures sel.Some? && (exists x :: Hit(T, sel.value, x, Query(Page, path, pn, anchor))) ==>
      r.Some? && FirstHit(T, sel.value, r.value, Query(Page, path, pn, anchor))
    ensures (sel.None? || forall x :: !Hit(T, sel.value, x, Query(Page, path, pn, anchor)))
            && (exists x :: Hit(T, [], x, Query(Page, path, pn, anchor))) ==>
      r.Some? && FirstHit(T, [], r.value, Query(Page, path, pn, anchor))
    ensures (sel.None? || forall x :: !Hit(T, sel.value, x, Query(Page, path, pn, anchor)))
            && (forall x :: !Hit(T, [], x, Query(Page, path, pn, anchor)))
            && (exists x :: Hit(T, [], x, Query(File, path, pn, anchor))) ==>
      r.Some? && FirstHit(T, [], r.value, Query(File, path, pn, anchor))
    ensures (exists x :: Hit(T, [], x, Query(Page, path, pn, anchor))) ==>
      r.Some? && ValidPath(T, r.value) && KindOf(T, r.value) == Page
    ensures r.Some? ==> (sel.Some? && Hit(T, sel.value, r.value, Query(Page, path, pn, anchor)))
                        || Hit(T, [], r.value, Query(Page, path, pn, anchor))
                        || Hit(T, [], r.value, Query(File, path, pn, anchor))
    ensures r.None? ==> forall x :: !Hit(T, [], x, Query(Page, path, pn, anchor))
                                    && !Hit(T, [], x, Query(File, path, pn, anchor))
  {
    var first := if sel.None? then None else FindAt(T, sel.value, Query(Page, path, pn, anchor));
    var second := if first.Some? then first else FindAll(T, Query(Page, path, pn, anchor));
    if second.Some? then second else FindAll(T, Query(File, path, pn, anchor))
  }

  /** One top-level file "/a.pdf" holding page 3. */
  function SampleTree(): Node
  {
    Node(RootItem, [Node(Item(Entry(File, "a.pdf", "/a.pdf", 0, 0, 0, ""), false, false, false),
                         [Node(Item(Entry(Page, "1", "", 0, 0, 3, ""), false, false, false), [])])])
  }

  lemma SamplePageAccepted()
    ensures ValidPath(SampleTree(), [0, 0]) && Accepts(SampleTree(), [0, 0], Query(Page, "/a.pdf", 3, ""))
  {
    var T := SampleTree();
    assert ValidPath(T, [0]) && ValidPath(T, [0, 0]);
    assert KindOf(T, [0]) == File && KindOf(T, [0, 0]) == Page;
    assert Parent([0, 0]) == [0];
    assert NearestFile(T, [0]) == Some([0]);
    assert NearestFile(T, [0, 0]) == Some([0]);
  }

  /** The tree-wide search for page 3 of "/a.pdf" finds the page. */
  lemma SamplePageFound()
    ensures FindAll(SampleTree(), Query(Page, "/a.pdf", 3, "")) == Some([0, 0])
  {
    var T := SampleTree();
    var Q := Query(Page, "/a.pdf", 3, "");
    SamplePageAccepted();
    assert FindAt(T, [0, 0], Q) == Some([0, 0]);
    assert [0] + [0] == [0, 0] && [] + [0] == [0];
    assert FindFrom(T, [0], 0, Q) == Some([0, 0]);
    assert FindAt(T, [0], Q) == Some([0, 0]);
  }

  /** Without a selection, setCurrentIndex as written never finds anything,
      while the page it is asked for is there to be found. */
  lemma AsWrittenMissesPage()
    ensures CurrentTargetAsWritten(SampleTree(), None, "/a.pdf", 3, "") == None
    ensures CurrentTarget(SampleTree(), None, "/a.pdf", 3, "") == Some([0, 0])
  {
    SamplePageFound();
  }
}
