/** How sortItems orders the children of one item. */
module SortLevel {
  import opened Index
  import opened Tree

  /** The column the outline is sorted by. */
  datatype SortColumn = TitleColumn | MTimeColumn | SizeColumn

  // ---------------------------------------------------------------------
  // The comparison

  /** std::string's operator<: lexicographic, a proper prefix first. */
  predicate StrLess(a: string, b: string)
  {
    b != [] && (a == [] || a[0] < b[0] || (a[0] == b[0] && StrLess(a[1..], b[1..])))
  }

  lemma {:induction false} StrLessIrreflexive(a: string)
    ensures !StrLess(a, a)
  {
    if a != [] {
      StrLessIrreflexive(a[1..]);
    }
  }

  lemma {:induction false} StrLessTransitive(a: string, b: string, c: string)
    ensures StrLess(a, b) && StrLess(b, c) ==> StrLess(a, c)
  {
    if a != [] && b != [] && c != [] && a[0] == b[0] && b[0] == c[0] {
      StrLessTransitive(a[1..], b[1..], c[1..]);
    }
  }

  lemma {:induction false} StrLessTotal(a: string, b: string)
    ensures a == b || StrLess(a, b) || StrLess(b, a)
  {
    if a != [] && b != [] && a[0] == b[0] {
      StrLessTotal(a[1..], b[1..]);
      assert a == [a[0]] + a[1..] && b == [b[0]] + b[1..];
    }
  }

  /** a's sort key is smaller than b's. */
  predicate KeyLess(col: SortColumn, a: Entry, b: Entry)
  {
    match col
    case TitleColumn => StrLess(a.title, b.title)
    case MTimeColumn => a.mtime < b.mtime
    case SizeColumn => a.size < b.size
  }

  /** The comparison handed to std::ranges::sort: greater when the ascending
      flag is set, less otherwise. */
  predicate Before(col: SortColumn, ascending: bool, a: Entry, b: Entry)
  {
    if ascending then KeyLess(col, b, a) else KeyLess(col, a, b)
  }

  lemma BeforeOrder(col: SortColumn, ascending: bool, a: Entry, b: Entry, c: Entry)
    ensures !Before(col, ascending, a, a)
    ensures Before(col, ascending, a, b) && Before(col, ascending, b, c) ==> Before(col, ascending, a, c)
  {
    StrLessIrreflexive(a.title);
    StrLessTransitive(a.title, b.title, c.title);
    StrLessTransitive(c.title, b.title, a.title);
  }

  // ---------------------------------------------------------------------
  // item_list and std::ranges::sort

  /** One entry of item_list: a child, named by its position before the
      sort, and whether it was expanded. */
  datatype ItemState = ItemState(tag: nat, expanded: bool)

  predicate InRange(L: seq<ItemState>, cs: seq<Node>)
  {
    forall k :: 0 <= k < |L| ==> L[k].tag < |cs|
  }

  function EntryOf(cs: seq<Node>, st: ItemState): Entry
    requires st.tag < |cs|
  {
    cs[st.tag].item.entry
  }

  /** The element at j does not compare before the one at i. */
  predicate InOrder(L: seq<ItemState>, cs: seq<Node>, col: SortColumn, ascending: bool, i: nat, j: nat)
    requires InRange(L, cs) && i < |L| && j < |L|
  {
    !Before(col, ascending, EntryOf(cs, L[j]), EntryOf(cs, L[i]))
  }

  /** No later element of L compares before an earlier one. */
  predicate Sorted(L: seq<ItemState>, cs: seq<Node>, col: SortColumn, ascending: bool)
  {
    InRange(L, cs) && forall i, j :: 0 <= i < j < |L| ==> InOrder(L, cs, col, ascending, i, j)
  }

  /** item_list: the children that are not pages, in order, with their
      expanded flags. */
  function States(cs: seq<Node>): (L: seq<ItemState>)
    ensures InRange(L, cs)
    ensures forall k :: 0 <= k < |L| ==> cs[L[k].tag].item.entry.kind != Page
                                         && L[k].expanded == cs[L[k].tag].item.expanded
    ensures forall k, l :: 0 <= k < l < |L| ==> L[k].tag < L[l].tag
  {
    if cs == [] then []
    else
      var n := |cs| - 1;
      var L0 := States(cs[..n]);
      assert forall k :: 0 <= k < |L0| ==> cs[L0[k].tag] == cs[..n][L0[k].tag];
      if cs[n].item.entry.kind == Page then L0 else L0 + [ItemState(n, cs[n].item.expanded)]
  }

  /** Putting in front of a sorted list an element that no element of the
      list compares before keeps it sorted. */
  lemma PrependSorted(x: ItemState, S: seq<ItemState>, cs: seq<Node>, col: SortColumn, ascending: bool)
    requires x.tag < |cs| && Sorted(S, cs, col, ascending)
    requires forall k :: 0 <= k < |S| ==> !Before(col, ascending, EntryOf(cs, S[k]), EntryOf(cs, x))
    ensures Sorted([x] + S, cs, col, ascending)
  {
    var r := [x] + S;
    forall i, j | 0 <= i < j < |r| ensures InOrder(r, cs, col, ascending, i, j) {
      if i == 0 {
        assert r[j] == S[j - 1];
      } else {
        assert r[i] == S[i - 1] && r[j] == S[j - 1];
        assert InOrder(S, cs, col, ascending, i - 1, j - 1);
      }
    }
  }

  /** When x compares before the head of a sorted list, nothing in the list
      compares before x. */
  lemma BelowHead(x: ItemState, S: seq<ItemState>, cs: seq<Node>, col: SortColumn, ascending: bool)
    requires x.tag < |cs| && Sorted(S, cs, col, ascending) && S != []
    requires Before(col, ascending, EntryOf(cs, x), EntryOf(cs, S[0]))
    ensures forall k :: 0 <= k < |S| ==> !Before(col, ascending, EntryOf(cs, S[k]), EntryOf(cs, x))
  {
    forall k | 0 <= k < |S| ensures !Before(col, ascending, EntryOf(cs, S[k]), EntryOf(cs, x)) {
      BeforeOrder(col, ascending, EntryOf(cs, S[k]), EntryOf(cs, x), EntryOf(cs, S[0]));
      BeforeOrder(col, ascending, EntryOf(cs, S[0]), EntryOf(cs, S[0]), EntryOf(cs, S[0]));
      if k > 0 {
        assert InOrder(S, cs, col, ascending, 0, k);
      }
    }
  }

  /** Every element of R, made of the tail of a sorted list and an element
      that does not compare before the head, is not before the head. */
  lemma HeadFirst(x: ItemState, S: seq<ItemState>, R: seq<ItemState>, cs: seq<Node>, col: SortColumn, ascending: bool)
    requires x.tag < |cs| && Sorted(S, cs, col, ascending) && S != [] && InRange(R, cs)
    requires !Before(col, ascending, EntryOf(cs, x), EntryOf(cs, S[0]))
    requires multiset(R) == multiset(S[1..]) + multiset{x}
    ensures forall k :: 0 <= k < |R| ==> !Before(col, ascending, EntryOf(cs, R[k]), EntryOf(cs, S[0]))
  {
    forall k | 0 <= k < |R| ensures !Before(col, ascending, EntryOf(cs, R[k]), EntryOf(cs, S[0])) {
      assert R[k] in multiset(R);
      if R[k] != x {
        assert R[k] in S[1..];
        var m :| 0 <= m < |S| - 1 && S[1..][m] == R[k];
        assert S[m + 1] == R[k];
        assert InOrder(S, cs, col, ascending, 0, m + 1);
      }
    }
  }

  lemma SortedTail(S: seq<ItemState>, cs: seq<Node>, col: SortColumn, ascending: bool)
    requires Sorted(S, cs, col, ascending) && S != []
    ensures Sorted(S[1..], cs, col, ascending)
  {
    forall i, j | 0 <= i < j < |S| - 1
      ensures InOrder(S[1..], cs, col, ascending, i, j)
    {
      assert S[1..][j] == S[j + 1] && S[1..][i] == S[i + 1];
      assert InOrder(S, cs, col, ascending, i + 1, j + 1);
    }
  }

  /** Inserting one element into a sorted list, after the elements it does
      not compare before. */
  function Insert(x: ItemState, S: seq<ItemState>, cs: seq<Node>, col: SortColumn, ascending: bool)
    : (r: seq<ItemState>)
    requires x.tag < |cs| && Sorted(S, cs, col, ascending)
    ensures multiset(r) == multiset(S) + multiset{x} && |r| == |S| + 1
    ensures Sorted(r, cs, col, ascending)
  {
    if S == [] then [x]
    else if Before(col, ascending, EntryOf(cs, x), EntryOf(cs, S[0])) then
      BelowHead(x, S, cs, col, ascending);
      PrependSorted(x, S, cs, col, ascending);
      [x] + S
    else
      SortedTail(S, cs, col, ascending);
      var R := Insert(x, S[1..], cs, col, ascending);
      KeepHead(x, S, R, cs, col, ascending);
      [S[0]] + R
  }

  /** The head of a sorted list stays in front of the tail with x inserted
      when x does not compare before it. */
  lemma KeepHead(x: ItemState, S: seq<ItemState>, R: seq<ItemState>, cs: seq<Node>, col: SortColumn, ascending: bool)
    requires x.tag < |cs| && Sorted(S, cs, col, ascending) && S != [] && Sorted(R, cs, col, ascending)
    requires !Before(col, ascending, EntryOf(cs, x), EntryOf(cs, S[0]))
    requires multiset(R) == multiset(S[1..]) + multiset{x} && |R| == |S|
    ensures multiset([S[0]] + R) == multiset(S) + multiset{x} && |[S[0]] + R| == |S| + 1
    ensures Sorted([S[0]] + R, cs, col, ascending)
  {
    assert S == [S[0]] + S[1..];
    HeadFirst(x, S, R, cs, col, ascending);
    PrependSorted(S[0], R, cs, col, ascending);
  }

  /** std::ranges::sort, as an insertion sort: the order it leaves equal
      keys in is one of those std::ranges::sort may leave. */
  function SortStates(L: seq<ItemState>, cs: seq<Node>, col: SortColumn, ascending: bool)
    : (r: seq<ItemState>)
    requires InRange(L, cs)
    ensures multiset(r) == multiset(L) && |r| == |L|
    ensures Sorted(r, cs, col, ascending)
  {
    if L == [] then []
    else
      assert L == [L[0]] + L[1..];
      Insert(L[0], SortStates(L[1..], cs, col, ascending), cs, col, ascending)
  }

  // ---------------------------------------------------------------------
  // The order a level ends up in

  /** The children the states name, in the states' order. */
  function Nodes(L: seq<ItemState>, cs: seq<Node>): (r: seq<Node>)
    requires InRange(L, cs)
    ensures |r| == |L| && forall k :: 0 <= k < |L| ==> r[k] == cs[L[k].tag]
  {
    seq(|L|, k requires 0 <= k < |L| => cs[L[k].tag])
  }

  /** The page children, in order. */
  function Pages(cs: seq<Node>): (r: seq<Node>)
    ensures forall k :: 0 <= k < |r| ==> r[k].item.entry.kind == Page
  {
    if cs == [] then []
    else Pages(cs[..|cs| - 1]) + (if cs[|cs| - 1].item.entry.kind == Page then [cs[|cs| - 1]] else [])
  }

  /** The other children, in order. */
  function NonPages(cs: seq<Node>): (r: seq<Node>)
    ensures forall k :: 0 <= k < |r| ==> r[k].item.entry.kind != Page
  {
    if cs == [] then []
    else NonPages(cs[..|cs| - 1]) + (if cs[|cs| - 1].item.entry.kind == Page then [] else [cs[|cs| - 1]])
  }

  /** One pass of sortItems over X: the non-page children sorted, then the
      page children in the order they had. */
  function Level(X: Node, col: SortColumn, ascending: bool): Node
  {
    X.(children := Nodes(SortStates(States(X.children), X.children, col, ascending), X.children)
                   + Pages(X.children))
  }

  lemma {:induction false} StatesAreNonPages(cs: seq<Node>)
    ensures Nodes(States(cs), cs) == NonPages(cs)
  {
    if cs != [] {
      var n := |cs| - 1;
      StatesAreNonPages(cs[..n]);
      var L0 := States(cs[..n]);
      assert Nodes(L0, cs) == Nodes(L0, cs[..n]);
    }
  }

  lemma NodesCons(a: ItemState, R: seq<ItemState>, cs: seq<Node>)
    requires a.tag < |cs| && InRange(R, cs)
    ensures InRange([a] + R, cs)
    ensures multiset(Nodes([a] + R, cs)) == multiset{cs[a.tag]} + multiset(Nodes(R, cs))
  {
    assert Nodes([a] + R, cs) == [cs[a.tag]] + Nodes(R, cs);
  }

  /** Inserting a state adds the child it names. */
  lemma {:induction false} InsertNodes(x: ItemState, S: seq<ItemState>, cs: seq<Node>, col: SortColumn, ascending: bool)
    requires x.tag < |cs| && Sorted(S, cs, col, ascending)
    ensures multiset(Nodes(Insert(x, S, cs, col, ascending), cs)) == multiset(Nodes(S, cs)) + multiset{cs[x.tag]}
    decreases |S|
  {
    if S == [] {
      assert Nodes([x], cs) == [cs[x.tag]];
    } else if Before(col, ascending, EntryOf(cs, x), EntryOf(cs, S[0])) {
      NodesCons(x, S, cs);
    } else {
      SortedTail(S, cs, col, ascending);
      InsertNodes(x, S[1..], cs, col, ascending);
      ConsNodes(S, Insert(x, S[1..], cs, col, ascending), cs[x.tag], cs);
    }
  }

  /** Putting the head of S in front of a list that names the children of
      S's tail and y names the children of S and y. */
  lemma ConsNodes(S: seq<ItemState>, R: seq<ItemState>, y: Node, cs: seq<Node>)
    requires S != [] && InRange(S, cs) && InRange(R, cs)
    requires multiset(Nodes(R, cs)) == multiset(Nodes(S[1..], cs)) + multiset{y}
    ensures InRange([S[0]] + R, cs)
    ensures multiset(Nodes([S[0]] + R, cs)) == multiset(Nodes(S, cs)) + multiset{y}
  {
    NodesCons(S[0], R, cs);
    assert S == [S[0]] + S[1..];
    NodesCons(S[0], S[1..], cs);
  }

  /** Sorting the states reorders the children they name. */
  lemma {:induction false} SortNodes(L: seq<ItemState>, cs: seq<Node>, col: SortColumn, ascending: bool)
    requires InRange(L, cs)
    ensures multiset(Nodes(SortStates(L, cs, col, ascending), cs)) == multiset(Nodes(L, cs))
    decreases |L|
  {
    if L != [] {
      assert L == [L[0]] + L[1..];
      var T := SortStates(L[1..], cs, col, ascending);
      assert SortStates(L, cs, col, ascending) == Insert(L[0], T, cs, col, ascending);
      SortNodes(L[1..], cs, col, ascending);
      InsertNodes(L[0], T, cs, col, ascending);
      HeadBack(L, T, Insert(L[0], T, cs, col, ascending), cs);
    }
  }

  /** A list naming the children of L's tail, with L's head added, names
      the children of L. */
  lemma HeadBack(L: seq<ItemState>, T: seq<ItemState>, I: seq<ItemState>, cs: seq<Node>)
    requires L != [] && InRange(L, cs) && InRange(T, cs) && InRange(I, cs)
    requires multiset(Nodes(T, cs)) == multiset(Nodes(L[1..], cs))
    requires multiset(Nodes(I, cs)) == multiset(Nodes(T, cs)) + multiset{cs[L[0].tag]}
    ensures multiset(Nodes(I, cs)) == multiset(Nodes(L, cs))
  {
    assert L == [L[0]] + L[1..];
    NodesCons(L[0], L[1..], cs);
  }

  lemma {:induction false} SplitPermutation(cs: seq<Node>)
    ensures multiset(NonPages(cs) + Pages(cs)) == multiset(cs)
  {
    if cs != [] {
      var n := |cs| - 1;
      SplitPermutation(cs[..n]);
      assert cs == cs[..n] + [cs[n]];
    }
  }

  /** The pass only reorders the children: the same items with the same
      subtrees, each as often as before. */
  lemma LevelPermutation(X: Node, col: SortColumn, ascending: bool)
    ensures multiset(Level(X, col, ascending).children) == multiset(X.children)
    ensures |Level(X, col, ascending).children| == |X.children|
    ensures Level(X, col, ascending).item == X.item
  {
    var cs := X.children;
    var L := States(cs);
    SortNodes(L, cs, col, ascending);
    StatesAreNonPages(cs);
    SplitPermutation(cs);
    assert |multiset(Level(X, col, ascending).children)| == |multiset(cs)|;
  }

  /** After the pass the non-page children come first, sorted by the
      comparison (so by decreasing key when the ascending flag is set), and
      the pages follow in the order they had. */
  lemma LevelOrder(X: Node, col: SortColumn, ascending: bool)
    ensures var r := Level(X, col, ascending).children; var m := |NonPages(X.children)|;
      m <= |r| && r[m..] == Pages(X.children)
      && (forall k :: 0 <= k < m ==> r[k].item.entry.kind != Page)
      && (forall i, j :: 0 <= i < j < m ==> !Before(col, ascending, r[j].item.entry, r[i].item.entry))
  {
    var cs := X.children;
    var L := SortStates(States(cs), cs, col, ascending);
    StatesAreNonPages(cs);
    var r := Level(X, col, ascending).children;
    assert r == Nodes(L, cs) + Pages(cs);
    forall k | 0 <= k < |L| ensures r[k].item.entry.kind != Page {
      assert r[k] == cs[L[k].tag];
      assert L[k] in multiset(States(cs));
      var m :| 0 <= m < |States(cs)| && States(cs)[m] == L[k];
    }
    forall i, j | 0 <= i < j < |L| ensures !Before(col, ascending, r[j].item.entry, r[i].item.entry) {
      assert r[i] == cs[L[i].tag] && r[j] == cs[L[j].tag];
      assert InOrder(L, cs, col, ascending, i, j);
    }
  }

  // ---------------------------------------------------------------------
  // Which children are sorted next

  /** A child sortItems pushes for a later pass: a directory with more than
      one child. */
  predicate Eligible(c: Node)
  {
    c.item.entry.kind == Dir && |c.children| > 1
  }

  /** The tags of the children in L that are pushed, in L's order. */
  function PushTags(L: seq<ItemState>, cs: seq<Node>): (J: seq<nat>)
    requires InRange(L, cs)
    ensures forall m :: 0 <= m < |J| ==> J[m] < |cs| && Eligible(cs[J[m]])
  {
    if L == [] then []
    else
      var n := |L| - 1;
      PushTags(L[..n], cs) + (if Eligible(cs[L[n].tag]) then [L[n].tag] else [])
  }
}
