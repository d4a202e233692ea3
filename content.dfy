/** The outline panel: the item tree, the index it mirrors and the sort
    settings, with the operations that change them. */
module Outline {
  import opened Index
  import opened Tree
  import opened Filter
  import opened FilterWalk
  import opened FilterStep
  import opened Selection
  import opened Navigation
  import opened Search
  import opened SortLevel
  import opened Reinsert
  import opened PushOrder
  import opened SortWalk
  import opened DeletePlan
  import opened Pruning
  import opened Deletion

  class Content {
    /** The widget's invisible root item and every item below it. */
    var root: Node
    /** The index the outline was last built from (mIndex). */
    var index: FileIndex
    var sortColumn: SortColumn
    var sortAscending: bool

    constructor (column: SortColumn, ascending: bool)
      ensures root == Node(RootItem, []) && index == FileIndex(RootItem.entry, [])
      ensures sortColumn == column && sortAscending == ascending
    {
      root := Node(RootItem, []);
      index := FileIndex(RootItem.entry, []);
      sortColumn := column;
      sortAscending := ascending;
    }

    // -------------------------------------------------------------------
    // Building from the index

    /** setIndex for one index node under the item at r: a new item for
        the node is added as r's last child, then one for each of the
        node's children below it, recursively. */
    method AddIndex(fi: FileIndex, r: seq<nat>)
      requires ValidPath(root, r)
      modifies this
      ensures ValidPath(old(root), r)
      ensures root == Put(old(root), r, At(old(root), r).(children := At(old(root), r).children + [Build(fi)]))
      ensures index == old(index) && sortColumn == old(sortColumn) && sortAscending == old(sortAscending)
      decreases fi
    {
      ghost var T0 := root;
      var X := At(root, r);
      var k := |X.children|;
      var item := Item(fi.entry, false, false, false);
      root := Put(root, r, X.(children := X.children + [Node(item, [])]));
      assert BuildAll(fi.children[..0]) == [];
      var j := 0;
      while j < |fi.children|
        invariant 0 <= j <= |fi.children|
        invariant root == Put(T0, r, X.(children := X.children + [Node(item, BuildAll(fi.children[..j]))]))
        invariant index == old(index) && sortColumn == old(sortColumn) && sortAscending == old(sortAscending)
      {
        ghost var Y := X.(children := X.children + [Node(item, BuildAll(fi.children[..j]))]);
        ghost var Z := Node(item, BuildAll(fi.children[..j + 1]));
        PutChild(T0, r, Y, k, Z);
        AddIndex(fi.children[j], r + [k]);
        assert BuildAll(fi.children[..j]) + [Build(fi.children[j])] == BuildAll(fi.children[..j + 1]);
        assert Y.children[k := Z] == X.children + [Z];
        j := j + 1;
      }
      assert fi.children[..j] == fi.children;
    }

    /** The loop of refreshIndex and of setIndex's merge: one AddIndex per
        index node in cs, in order, under the item at r. */
    method AddChildren(cs: seq<FileIndex>, r: seq<nat>)
      requires ValidPath(root, r)
      modifies this
      ensures ValidPath(old(root), r)
      ensures root == Put(old(root), r, At(old(root), r).(children := At(old(root), r).children + BuildAll(cs)))
      ensures index == old(index) && sortColumn == old(sortColumn) && sortAscending == old(sortAscending)
    {
      ghost var T0 := root;
      var X := At(root, r);
      PutSame(root, r);
      assert X.children + BuildAll(cs[..0]) == X.children;
      var j := 0;
      while j < |cs|
        invariant 0 <= j <= |cs|
        invariant root == Put(T0, r, X.(children := X.children + BuildAll(cs[..j])))
        invariant index == old(index) && sortColumn == old(sortColumn) && sortAscending == old(sortAscending)
      {
        ghost var Y := X.(children := X.children + BuildAll(cs[..j]));
        PutTwice(T0, r, Y, Y);
        PutFacts(T0, r, Y, r);
        assert r[|r|..] == [];
        AddIndex(cs[j], r);
        assert BuildAll(cs[..j]) + [Build(cs[j])] == BuildAll(cs[..j + 1]);
        assert Y.children + [Build(cs[j])] == X.children + BuildAll(cs[..j + 1]);
        PutTwice(T0, r, Y, Y.(children := Y.children + [Build(cs[j])]));
        j := j + 1;
      }
      assert cs[..j] == cs;
    }

    /** refreshIndex: clear the tree, take the new index, add an item tree
        for each of its children and sort everything. */
    method RefreshIndex(fi: FileIndex)
      modifies this
      ensures index == fi
      ensures root == SortNode(Node(old(root).item, BuildAll(fi.children)), sortColumn, sortAscending)
      ensures sortColumn == old(sortColumn) && sortAscending == old(sortAscending)
    {
      root := Node(root.item, []);
      index := fi;
      AddChildren(index.children, []);
      assert root == Node(old(root).item, BuildAll(fi.children));
      SortItems([]);
    }

    /** setIndex: a directory index, or any index while the tree is
        empty, rebuilds the outline; a file index opened while the outline
        shows a directory hands its children to the selected item when
        that item is a file whose index node has no children yet. */
    method SetIndex(fi: FileIndex)
      requires |root.children| > 0 && fi.entry.kind != Dir && index.entry.kind == Dir ==> FirstSelected(root).Some?
      modifies this
      ensures |old(root).children| == 0 || fi.entry.kind == Dir ==>
        index == fi && root == SortNode(Node(old(root).item, BuildAll(fi.children)), sortColumn, sortAscending)
      ensures |old(root).children| > 0 && fi.entry.kind != Dir ==>
        match MergeTarget(old(root), old(index), fi)
        case None => root == old(root) && index == old(index)
        case Some(p) =>
          index == EditAt(old(index), Chain(old(root), p), AppendChildren(fi.children))
          && root == Put(old(root), p, At(old(root), p).(children := At(old(root), p).children + BuildAll(fi.children)))
      ensures sortColumn == old(sortColumn) && sortAscending == old(sortAscending)
    {
      if |root.children| == 0 || fi.entry.kind == Dir {
        RefreshIndex(fi);
        return;
      }
      if index.entry.kind == Dir {
        var p := FirstSelected(root).value;
        var chain := Chain(root, p);
        var pos := Locate(index, chain);
        if pos.Some? && NodeAt(index, pos.value).entry.kind == File && fi.entry.kind == File {
          if NodeAt(index, pos.value).children == [] {
            index := EditAt(index, chain, AppendChildren(fi.children));
            var kids := NodeAt(index, pos.value).children;
            assert kids == fi.children;
            AddChildren(kids, p);
          }
        }
      }
    }

    // -------------------------------------------------------------------
    // Filtering

    /** filterItemBy: a depth-first walk over everything below r with an
        explicit stack.  A visited item is shown when it matches, together
        with every item above it up to the top level, and hidden otherwise;
        a file whose verdict is handed down passes it to its whole subtree
        instead of pushing its children. */
    method FilterItemBy(r: seq<nat>, spec: Spec)
      requires ValidPath(root, r)
      modifies this
      ensures Filtered(old(root), root, spec, r)
      ensures index == old(index) && sortColumn == old(sortColumn) && sortAscending == old(sortAscending)
      decreases if spec.Const? then 0 else 2, 1
    {
      ghost var T0 := root;
      FlagsInitial(T0, spec, r);
      var stack := PushChildren([], r, |At(root, r).children|);
      assert stack == ChildPaths(r, |At(T0, r).children|);
      while stack != []
        invariant StackOk(T0, spec, r, stack) && Flags(T0, root, spec, r, stack)
        invariant index == old(index) && sortColumn == old(sortColumn) && sortAscending == old(sortAscending)
        decreases Weight(T0, stack)
      {
        stack := VisitTop(stack, spec, T0, r);
      }
      FlagsFinal(T0, root, spec, r);
    }

    /** One round of filterItemBy's loop: pop the top item, give it its
        verdict, and then either hand the verdict to its subtree (a file
        whose verdict is handed down) or push its children. */
    method VisitTop(stack: seq<seq<nat>>, spec: Spec, ghost T0: Node, ghost r: seq<nat>) returns (next: seq<seq<nat>>)
      requires stack != [] && StackOk(T0, spec, r, stack) && Flags(T0, root, spec, r, stack)
      modifies this
      ensures StackOk(T0, spec, r, next) && Flags(T0, root, spec, r, next)
      ensures Weight(T0, next) < Weight(T0, stack)
      ensures index == old(index) && sortColumn == old(sortColumn) && sortAscending == old(sortAscending)
      decreases if spec.Const? then 0 else 2, 0
    {
      var s := stack[|stack| - 1];
      var s0 := stack[..|stack| - 1];
      assert stack == s0 + [s];
      FlagsTop(T0, root, spec, r, stack);
      next := s0;
      var e := At(root, s).item.entry;
      var v := Judge(spec, e);
      SetVisibility(s, v.show, T0, spec, r, s0);
      FlagsPath(T0, root, spec, r, s0 + ChildPaths(s, |At(T0, s).children|), s);
      if e.kind == File && v.sameAsFile {
        ghost var M := root;
        SetItemChildrenFilter(s, v.show);
        BlanketDone(T0, M, root, spec, r, s0, s);
        WeightAfterPop(T0, s0, s);
      } else {
        StackAfterPush(T0, spec, r, s0, s);
        WeightAfterPush(T0, s0, s);
        next := PushChildren(next, s, |At(root, s).children|);
      }
    }

    /** Pushes the paths of the first `count` children of the item at s, in order. */
    static method PushChildren(stack: seq<seq<nat>>, s: seq<nat>, count: nat) returns (r: seq<seq<nat>>)
      ensures r == stack + ChildPaths(s, count)
    {
      r := stack;
      var j := 0;
      while j < count
        invariant 0 <= j <= count && r == stack + ChildPaths(s, j)
      {
        r := r + [s + [j]];
        j := j + 1;
      }
    }

    /** One visit of filterItemBy: the popped item s is shown when it
        matched, and then so is every item above it up to the top level;
        otherwise it is hidden. */
    method SetVisibility(s: seq<nat>, show: bool, ghost T0: Node, ghost spec: Spec, ghost r: seq<nat>, ghost s0: seq<seq<nat>>)
      requires StackOk(T0, spec, r, s0 + [s]) && Flags(T0, root, spec, r, s0 + [s])
      requires ValidPath(T0, s) && show == Judge(spec, At(T0, s).item.entry).show
      modifies this
      ensures Flags(T0, root, spec, r, s0 + ChildPaths(s, |At(T0, s).children|))
      ensures index == old(index) && sortColumn == old(sortColumn) && sortAscending == old(sortAscending)
    {
      if show {
        ShowTop(T0, root, spec, r, s0, s);
        root := SetHidden(root, s, false);
        var p: seq<nat> := s;
        while |p| > 1
          invariant 1 <= |p| && IsPrefix(p, s)
          invariant Unhiding(T0, root, spec, r, s0, s, p)
          invariant index == old(index) && sortColumn == old(sortColumn) && sortAscending == old(sortAscending)
        {
          ShowParent(T0, root, spec, r, s0, s, p);
          p := Parent(p);
          root := SetHidden(root, p, false);
        }
        ShowDone(T0, root, spec, r, s0, s, p);
      } else {
        HideTop(T0, root, spec, r, s0, s);
        root := SetHidden(root, s, true);
      }
    }

    /** setItemChildrenFilter: every item below r gets the same verdict. */
    method SetItemChildrenFilter(r: seq<nat>, show: bool)
      requires ValidPath(root, r)
      modifies this
      ensures Filtered(old(root), root, Const(show), r)
      ensures index == old(index) && sortColumn == old(sortColumn) && sortAscending == old(sortAscending)
      decreases 1, 0
    {
      FilterItemBy(r, Const(show));
    }
    /** onFilter: an empty (trimmed) text shows every item; otherwise the
        predicate of the chosen kind is run over the whole tree and then
        every item with children that is neither hidden nor below a hidden
        item is expanded.  A kind outside the known ones (None) filters
        nothing but still expands.  The time and size bounds are the values
        parsed from the text. */
    method OnFilter(ft: Option<FilterType>, text: string, time: int, size: nat)
      modifies this
      ensures Trimmed(text) == [] ==> Filtered(old(root), root, Const(true), [])
      ensures Trimmed(text) != [] && ft.Some? ==>
        FilteredExpanded(old(root), root, SpecFor(ft.value, Trimmed(text), time, size))
      ensures Trimmed(text) != [] && ft.None? ==> root == ExpandBelow(old(root))
      ensures index == old(index) && sortColumn == old(sortColumn) && sortAscending == old(sortAscending)
    {
      var t := Trimmed(text);
      if t == [] {
        SetItemChildrenFilter([], true);
        return;
      }
      if ft.Some? {
        FilterItemBy([], SpecFor(ft.value, t, time, size));
        FilterThenExpand(old(root), root, SpecFor(ft.value, t, time, size));
      }
      root := ExpandBelow(root);
    }

    // -------------------------------------------------------------------
    // Selection and scrolling

    /** setItemSelected: clear the selection, expand every item above p,
        select p and collapse it. */
    method SetItemSelected(p: seq<nat>)
      requires ValidPath(root, p) && p != []
      modifies this
      ensures Reselected(old(root), root, p)
      ensures index == old(index) && sortColumn == old(sortColumn) && sortAscending == old(sortAscending)
    {
      ghost var T0 := root;
      var sel := SelectedPaths(root);
      DeselectStart(T0, sel);
      var i := 0;
      while i < |sel|
        invariant 0 <= i <= |sel| && Deselecting(T0, root, sel, i)
        invariant index == old(index) && sortColumn == old(sortColumn) && sortAscending == old(sortAscending)
      {
        DeselectStep(T0, root, i);
        root := SetSelected(root, sel[i], false);
        i := i + 1;
      }
      ExpandStart(T0, root, p);
      var a := p;
      while |a| > 1
        invariant IsPrefix(a, p) && Expanding(T0, root, p, a)
        invariant index == old(index) && sortColumn == old(sortColumn) && sortAscending == old(sortAscending)
      {
        ExpandStep(T0, root, p, a);
        root := SetExpanded(root, Parent(a), true);
        a := Parent(a);
      }
      SelectFinish(T0, root, p, a);
      ghost var T := root;
      root := SetSelected(root, p, true);
      SetItemFacts(T, p, At(T, p).item.(selected := true));
      if At(root, p).item.expanded {
        root := SetExpanded(root, p, false);
      }
      assert root == SelectAndCollapse(T, p);
    }

    /** scrollUp: select the sibling `times` places before the selected item
        (at least the first one), or after it for a negative count; nothing
        happens without a selection or at the first sibling. */
    method ScrollUp(times: int)
      requires FirstSelected(root).Some? ==> UpInRange(root, FirstSelected(root).value, times)
      modifies this
      ensures var c := FirstSelected(old(root));
        if c.Some? && Last(c.value) > 0 then Reselected(old(root), root, UpTarget(c.value, times))
        else root == old(root)
      ensures index == old(index) && sortColumn == old(sortColumn) && sortAscending == old(sortAscending)
    {
      var item := FirstSelected(root);
      if item.None? {
        return;
      }
      var p := item.value;
      var parent := Parent(p);
      var idx := Last(p);
      if idx > 0 {
        var newIndex := if idx > times then idx - times else 0;
        SiblingValid(root, p, newIndex);
        SetItemSelected(parent + [newIndex]);
      }
    }

    /** scrollDown: select the sibling `times` places after the selected item
        (at most the last one), or before it for a negative count. */
    method ScrollDown(times: int)
      requires FirstSelected(root).Some? ==> DownInRange(FirstSelected(root).value, times)
      modifies this
      ensures var c := FirstSelected(old(root));
        if c.Some? then
          SiblingCount(old(root), c.value) > Last(c.value)
          && Reselected(old(root), root, DownTarget(c.value, times, SiblingCount(old(root), c.value)))
        else root == old(root)
      ensures index == old(index) && sortColumn == old(sortColumn) && sortAscending == old(sortAscending)
    {
      var item := FirstSelected(root);
      if item.None? {
        return;
      }
      var p := item.value;
      var parent := Parent(p);
      SiblingValid(root, p, 0);
      var idx := Last(p);
      var count := |At(root, parent).children|;
      var newIndex := if idx + times < count then idx + times else count - 1;
      SiblingValid(root, p, newIndex);
      SetItemSelected(parent + [newIndex]);
    }

    /** scrollLeft: select the ancestor max(times, 1) levels up, stopping at
        the top level; nothing happens at the top level. */
    method ScrollLeft(times: int)
      modifies this
      ensures var c := FirstSelected(old(root));
        if c.Some? && |c.value| > 1 then Reselected(old(root), root, LeftTarget(c.value, times))
        else root == old(root)
      ensures index == old(index) && sortColumn == old(sortColumn) && sortAscending == old(sortAscending)
    {
      var item := FirstSelected(root);
      if item.None? || |item.value| == 1 {
        return;
      }
      var p := item.value;
      var parent := Parent(p);
      var t := times - 1;
      while t > 0 && |parent| > 1
        invariant 1 <= |parent| < |p| && parent == p[..|parent|]
        invariant t == times - (|p| - |parent|) && |p| - |parent| <= Max(times, 1)
        invariant index == old(index) && sortColumn == old(sortColumn) && sortAscending == old(sortAscending)
      {
        parent := Parent(parent);
        t := t - 1;
      }
      assert parent == LeftTarget(p, times);
      PrefixValid(root, p, |parent|);
      SetItemSelected(parent);
    }

    /** scrollRight: select the item max(times, 1) first-child steps below
        the selected one, stopping at a leaf; nothing happens on a leaf. */
    method ScrollRight(times: int)
      modifies this
      ensures var c := FirstSelected(old(root));
        if c.Some? && At(old(root), c.value).children != [] then
          Reselected(old(root), root, RightTarget(old(root), c.value, times))
        else root == old(root)
      ensures index == old(index) && sortColumn == old(sortColumn) && sortAscending == old(sortAscending)
    {
      var item := FirstSelected(root);
      if item.None? || At(root, item.value).children == [] {
        return;
      }
      var p := item.value;
      DescendOne(root, p, 0);
      var q := p + Zeros(1);
      var t := times - 1;
      while t > 0 && At(root, q).children != []
        invariant ValidPath(root, p) && ValidPath(root, q)
        invariant 1 <= |q| - |p| <= FirstChildDepth(At(root, p)) && q == p + Zeros(|q| - |p|)
        invariant FirstChildDepth(At(root, q)) == FirstChildDepth(At(root, p)) - (|q| - |p|)
        invariant t == times - (|q| - |p|) && |q| - |p| <= Max(times, 1)
        invariant root == old(root) && index == old(index) && sortColumn == old(sortColumn) && sortAscending == old(sortAscending)
      {
        DescendOne(root, p, |q| - |p|);
        q := q + [0];
        t := t - 1;
      }
      RightStop(root, p, |q| - |p|, times);
      SetItemSelected(q);
    }
    // -------------------------------------------------------------------
    // Looking items up

    /** treeItemToFileIndex: walk up from the item (None standing for no
        item) to the first file item, stopping after the top level. */
    method TreeItemToFileIndex(item: Option<seq<nat>>) returns (r: Option<seq<nat>>)
      requires item.Some? ==> item.value != [] && ValidPath(root, item.value)
      ensures r == if item.None? then None else NearestFile(root, item.value)
    {
      var cur := item;
      while cur.Some?
        invariant cur.Some? ==> item.Some? && cur.value != [] && ValidPath(root, cur.value)
        invariant item.Some? ==> NearestFile(root, item.value) == if cur.Some? then NearestFile(root, cur.value) else None
        decreases if cur.Some? then |cur.value| else 0
      {
        var p := cur.value;
        if KindOf(root, p) == File {
          return cur;
        }
        if |p| == 1 {
          cur := None;
        } else {
          PrefixValid(root, p, |p| - 1);
          cur := Some(Parent(p));
        }
      }
      return None;
    }

    /** currentItemFileIndex: the index node the selected item points to,
        reached through the entries of the item and those above it. */
    function CurrentItemFileIndex(): (r: Option<seq<nat>>)
      reads this
      ensures FirstSelected(root).None? ==> r.None?
      ensures r.Some? ==>
        FirstSelected(root).Some? && IsPos(index, r.value)
        && NodeAt(index, r.value).entry == At(root, FirstSelected(root).value).item.entry
    {
      match FirstSelected(root)
      case None => None
      case Some(p) =>
        ChainLast(root, p);
        Locate(index, Chain(root, p))
    }

    /** currentFileFileIndex: the index node of the nearest file item at or
        above the selected item. */
    function CurrentFileFileIndex(): (r: Option<seq<nat>>)
      reads this
      ensures FirstSelected(root).None? ==> r.None?
      ensures FirstSelected(root).Some? && NearestFile(root, FirstSelected(root).value).None? ==> r.None?
      ensures r.Some? ==>
        FirstSelected(root).Some? && NearestFile(root, FirstSelected(root).value).Some?
        && IsPos(index, r.value)
        && NodeAt(index, r.value).entry == At(root, NearestFile(root, FirstSelected(root).value).value).item.entry
        && NodeAt(index, r.value).entry.kind == File
    {
      match FirstSelected(root)
      case None => None
      case Some(p) =>
        match NearestFile(root, p)
        case None => None
        case Some(f) =>
          ChainLast(root, f);
          Locate(index, Chain(root, f))
    }

    /** setCurrentIndex as written: the item is looked for below the selected
        item, then twice from the invisible root. */
    method SetCurrentIndexAsWritten(path: string, pn: int, anchor: string) returns (found: bool)
      modifies this
      ensures var t := CurrentTargetAsWritten(old(root), FirstSelected(old(root)), path, pn, anchor);
        found == t.Some? && (if t.Some? then Reselected(old(root), root, t.value) else root == old(root))
      ensures index == old(index) && sortColumn == old(sortColumn) && sortAscending == old(sortAscending)
    {
      var sel := FirstSelected(root);
      var fitr := if sel.None? then None else FindAt(root, sel.value, Query(Page, path, pn, anchor));
      if fitr.None? {
        fitr := FindAt(root, [], Query(Page, path, pn, anchor));
      }
      if fitr.None? {
        fitr := FindAt(root, [], Query(File, path, pn, anchor));
      }
      if fitr.Some? {
        SetItemSelected(fitr.value);
        found := true;
      } else {
        found := false;
      }
    }

    /** setCurrentIndex with the tree-wide tiers searching the top-level
        items: select the matching page below the selected item, else the
        first matching page anywhere, else the first matching file. */
    method SetCurrentIndex(path: string, pn: int, anchor: string) returns (found: bool)
      modifies this
      ensures var t := CurrentTarget(old(root), FirstSelected(old(root)), path, pn, anchor);
        found == t.Some? && (if t.Some? then Reselected(old(root), root, t.value) else root == old(root))
      ensures index == old(index) && sortColumn == old(sortColumn) && sortAscending == old(sortAscending)
    {
      var sel := FirstSelected(root);
      var fitr := if sel.None? then None else FindAt(root, sel.value, Query(Page, path, pn, anchor));
      if fitr.None? {
        fitr := FindAll(root, Query(Page, path, pn, anchor));
      }
      if fitr.None? {
        fitr := FindAll(root, Query(File, path, pn, anchor));
      }
      if fitr.Some? {
        SetItemSelected(fitr.value);
        found := true;
      } else {
        found := false;
      }
    }

    /** selectFirstItem as written, on setCurrentIndex as written: unless a
        matching page lies below the selected item, the first top-level
        item is selected. */
    method SelectFirstItemAsWritten(filename: string, pageNumber: int)
      modifies this
      ensures var t := CurrentTargetAsWritten(old(root), FirstSelected(old(root)), filename, pageNumber, "");
        if t.Some? then Reselected(old(root), root, t.value)
        else if old(root).children != [] then Reselected(old(root), root, [0])
        else root == old(root)
      ensures index == old(index) && sortColumn == old(sortColumn) && sortAscending == old(sortAscending)
    {
      var found := SetCurrentIndexAsWritten(filename, pageNumber, "");
      if found {
        return;
      }
      if |root.children| > 0 {
        SetItemSelected([0]);
      }
    }

    /** selectFirstItem on the corrected setCurrentIndex: select the current
        page of the open file wherever it is, or else the matching file
        item, or else the first top-level item. */
    method SelectFirstItem(filename: string, pageNumber: int)
      modifies this
      ensures var t := CurrentTarget(old(root), FirstSelected(old(root)), filename, pageNumber, "");
        if t.Some? then Reselected(old(root), root, t.value)
        else if old(root).children != [] then Reselected(old(root), root, [0])
        else root == old(root)
      ensures index == old(index) && sortColumn == old(sortColumn) && sortAscending == old(sortAscending)
    {
      var found := SetCurrentIndex(filename, pageNumber, "");
      if found {
        return;
      }
      if |root.children| > 0 {
        SetItemSelected([0]);
      }
    }

    // -------------------------------------------------------------------
    // Renaming and deleting files

    /** onFileRename: the first selected item, when it is a file, takes
        the trimmed new name as its path and what follows the path's last
        '/' as its title, in the item and in its index node.  An empty name
        changes nothing, nor does a rename the file system refuses
        (`renamed` is the outcome of QFile::rename). */
    method OnFileRename(newName: string, renamed: bool)
      modifies this
      ensures !RenameApplies(old(root), Trimmed(newName), renamed) ==> root == old(root) && index == old(index)
      ensures RenameApplies(old(root), Trimmed(newName), renamed) ==>
        root == SetItem(old(root), FirstSelected(old(root)).value,
                        Renamed(At(old(root), FirstSelected(old(root)).value).item, Trimmed(newName)))
        && index == EditAt(old(index), Chain(old(root), FirstSelected(old(root)).value),
                           SetPath(Trimmed(newName), TitleFromPath(Trimmed(newName))))
      ensures sortColumn == old(sortColumn) && sortAscending == old(sortAscending)
    {
      var sel := FirstSelected(root);
      if sel.None? {
        return;
      }
      var p := sel.value;
      var it := At(root, p).item;
      if it.entry.kind != File {
        return;
      }
      var nn := Trimmed(newName);
      if nn == [] {
        return;
      }
      if renamed {
        var title := TitleFromPath(nn);
        index := EditAt(index, Chain(root, p), SetPath(nn, title));
        root := SetItem(root, p, Renamed(it, nn));
      }
    }

    /** onFileDelete: walk the selected items in order, skip those that
        are not files, and ask about each file until YesToAll or NoToAll
        has been answered (`answers` are the buttons pressed, in order).
        A file confirmed is removed from its parent's index node and from
        the tree, and its path is handed to QFile::remove (`removed`).
        NoToAll stops the loop; earlier deletions stay done.  An item is
        reached through its pointer: the model finds it at its original
        path moved past the siblings already removed. */
    method OnFileDelete(answers: seq<Answer>) returns (removed: seq<string>)
      requires NoneBelowSelectedFile(root)
      modifies this
      ensures AllValid(old(root), SelectedPaths(old(root)))
      ensures var items := SelectedPaths(old(root));
        var steps := Decisions(FileFlags(old(root), items), answers);
        root == Prune(old(root), DeletedSet(items, steps), [])
        && index == IndexAfter(old(root), old(index), items, steps)
        && removed == RemovedPaths(old(root), items, steps)
      ensures sortColumn == old(sortColumn) && sortAscending == old(sortAscending)
    {
      ghost var T0 := root;
      ghost var idx0 := index;
      var items := SelectedPaths(root);
      SelectedValid(root);
      ghost var files := FileFlags(T0, items);
      var msgRes := No;
      var asked := 0;
      var gone: set<seq<nat>> := {};
      ghost var done: seq<Step> := [];
      removed := [];
      PruneNone(T0);
      Start(files, answers);
      var i := 0;
      while i < |items|
        invariant 0 <= i <= |items| && |done| == i && msgRes != NoToAll
        invariant OnTrack(Decisions(files, answers), done, files, answers, i, asked, msgRes)
        invariant Reached(T0, idx0, items, done, gone, root, index, removed)
        invariant sortColumn == old(sortColumn) && sortAscending == old(sortAscending)
      {
        var q := items[i];
        CleanBeforeStep(T0, items, done, i);
        PruneAt(T0, gone, [], q);
        var it := At(root, Moved(gone, [], q)).item;
        ghost var step: Step;
        ghost var res0, asked0 := msgRes, asked;
        if it.entry.kind != File {
          step := Step(false, false, msgRes);
          KeepStep(T0, idx0, items, done, step, gone, root, index, removed);
        } else {
          var ask := msgRes == No || msgRes == Yes;
          if ask {
            msgRes := AnswerAt(answers, asked);
            asked := asked + 1;
          }
          if msgRes == NoToAll {
            Stop(Decisions(files, answers), done, files, answers, i, asked0, res0);
            return;
          }
          step := Step(ask, msgRes != No, msgRes);
          if msgRes != No {
            ghost var index0 := index;
            var path := RemoveItem(q, gone, T0);
            DeleteStep(T0, idx0, items, done, step, gone, Prune(T0, gone, []), index0, removed, index);
            removed := removed + [path];
            gone := gone + {q};
          } else {
            KeepStep(T0, idx0, items, done, step, gone, root, index, removed);
          }
        }
        Advance(Decisions(files, answers), done, files, answers, i, asked0, res0, step, asked, msgRes);
        done := done + [step];
        i := i + 1;
      }
      Finish(Decisions(files, answers), done, files, answers, asked, msgRes);
    }

    /** One deletion of onFileDelete: the parent's index node loses the
        item's index node and the parent item loses the item.  The item was
        at q before the items in `gone` were removed. */
    method RemoveItem(q: seq<nat>, gone: set<seq<nat>>, ghost T0: Node) returns (path: string)
      requires q != [] && ValidPath(T0, q) && Clean(gone, [], q) && root == Prune(T0, gone, [])
      modifies this
      ensures root == Prune(T0, gone + {q}, [])
      ensures var c := Chain(T0, q); index == EditAt(old(index), c[..|c| - 1], RemoveChild(c[|c| - 1]))
      ensures path == At(T0, q).item.entry.path
      ensures sortColumn == old(sortColumn) && sortAscending == old(sortAscending)
    {
      var cur := Moved(gone, [], q);
      ChainMoved(T0, gone, [], q);
      PruneAt(T0, gone, [], q);
      var chain := Chain(root, cur);
      index := EditAt(index, chain[..|chain| - 1], RemoveChild(chain[|chain| - 1]));
      path := At(root, cur).item.entry.path;
      RemoveMoved(T0, gone, [], q);
      assert [] + q == q;
      root := Remove(root, cur);
    }

    // -------------------------------------------------------------------
    // Sorting

    /** sortItems: sort the children of r, then, with an explicit stack,
        the children of every directory below with more than one child. */
    method SortItems(r: seq<nat>)
      requires ValidPath(root, r)
      modifies this
      ensures root == Put(old(root), r, SortNode(At(old(root), r), sortColumn, sortAscending))
      ensures index == old(index) && sortColumn == old(sortColumn) && sortAscending == old(sortAscending)
    {
      ghost var T0 := root;
      var needSort: seq<seq<nat>> := [r];
      SortStart(T0, r, sortColumn, sortAscending);
      while needSort != []
        invariant SortStackOk(root, needSort)
        invariant FoldStack(root, needSort, sortColumn, sortAscending)
                  == Put(T0, r, SortNode(At(T0, r), sortColumn, sortAscending))
        invariant index == old(index) && sortColumn == old(sortColumn) && sortAscending == old(sortAscending)
        decreases SortWeight(root, needSort)
      {
        var s := needSort[|needSort| - 1];
        var rest := needSort[..|needSort| - 1];
        assert needSort == rest + [s];
        ghost var T := root;
        StackStep(T, rest, s, sortColumn, sortAscending);
        SortStep(T, rest, s, sortColumn, sortAscending);
        var pushed := SortLevelAt(s);
        needSort := rest + pushed;
      }
    }

    /** One round of sortItems' loop for the item at s: collect item_list
        (the children that are not pages, with their expanded flags), note
        the children to sort next, sort item_list, move its items to the
        front in that order, and return the paths, after the moves, of the
        children to sort next, in item_list's original order. */
    method SortLevelAt(s: seq<nat>) returns (next: seq<seq<nat>>)
      requires ValidPath(root, s)
      modifies this
      ensures ValidPath(old(root), s)
      ensures root == Put(old(root), s, Level(At(old(root), s), sortColumn, sortAscending))
      ensures next == PushedPaths(s, Positions(At(old(root), s), sortColumn, sortAscending))
      ensures index == old(index) && sortColumn == old(sortColumn) && sortAscending == old(sortAscending)
    {
      var X := At(root, s);
      var cs := X.children;
      var itemList := ItemList(cs);
      var toPush := ToPush(itemList, cs);
      var sorted := SortStates(itemList, cs, sortColumn, sortAscending);
      SortedStates(cs, sortColumn, sortAscending);
      var order := Reinsert(s, sorted);
      LevelReached(X, sortColumn, sortAscending);
      PushedPlaced(X, sortColumn, sortAscending);
      next := PushPaths(s, order, toPush);
      PositionsAre(s, X, sortColumn, sortAscending, next);
    }

    /** item_list: the children that are not pages, in order, each with its
        expanded flag. */
    static method ItemList(cs: seq<Node>) returns (itemList: seq<ItemState>)
      ensures itemList == States(cs)
    {
      itemList := [];
      for i := 0 to |cs|
        invariant itemList == States(cs[..i])
      {
        assert cs[..i + 1][..i] == cs[..i];
        if cs[i].item.entry.kind != Page {
          itemList := itemList + [ItemState(i, cs[i].item.expanded)];
        }
      }
      assert cs[..|cs|] == cs;
    }

    /** The items of item_list to push: directories with more than one
        child. */
    static method ToPush(itemList: seq<ItemState>, cs: seq<Node>) returns (toPush: seq<nat>)
      requires InRange(itemList, cs)
      ensures toPush == PushTags(itemList, cs)
    {
      toPush := [];
      for k := 0 to |itemList|
        invariant toPush == PushTags(itemList[..k], cs)
      {
        assert itemList[..k + 1][..k] == itemList[..k];
        var c := cs[itemList[k].tag];
        if |c.children| > 1 && c.item.entry.kind == Dir {
          toPush := toPush + [itemList[k].tag];
        }
      }
      assert itemList[..|itemList|] == itemList;
    }

    /** The paths of the pushed items once the moves are done: order names
        each child's position by its position before the moves. */
    static method PushPaths(s: seq<nat>, order: seq<nat>, toPush: seq<nat>) returns (next: seq<seq<nat>>)
      requires forall t :: t in toPush ==> t in order
      ensures |next| == |toPush|
      ensures forall m :: 0 <= m < |toPush| ==> next[m] == s + [IndexOf(order, toPush[m])]
    {
      next := [];
      for m := 0 to |toPush|
        invariant |next| == m && forall q :: 0 <= q < m ==> next[q] == s + [IndexOf(order, toPush[q])]
      {
        assert toPush[m] in toPush;
        next := next + [s + [IndexOf(order, toPush[m])]];
      }
    }

    /** One round of the moves: item i of the sorted item_list is looked up
        among the children and, unless it is already at i, moved there. */
    method PlaceItem(s: seq<nat>, sorted: seq<ItemState>, i: nat, cur: seq<nat>, kids: seq<Node>,
                     ghost T0: Node, ghost X: Node)
      returns (cur': seq<nat>, kids': seq<Node>)
      requires ValidPath(T0, s) && i < |sorted| && DistinctTags(sorted, |X.children|)
      requires forall k :: 0 <= k < |sorted| ==> sorted[k].expanded == X.children[sorted[k].tag].item.expanded
      requires cur == Placed(sorted, |X.children|, i) && TagsBelow(cur, |X.children|)
      requires kids == TagNodes(cur, X.children) && root == Put(T0, s, X.(children := kids))
      modifies this
      ensures cur' == Placed(sorted, |X.children|, i + 1) && TagsBelow(cur', |X.children|)
      ensures kids' == TagNodes(cur', X.children) && root == Put(T0, s, X.(children := kids'))
      ensures index == old(index) && sortColumn == old(sortColumn) && sortAscending == old(sortAscending)
    {
      var p := sorted[i];
      PlaceNext(sorted, |X.children|, i);
      cur', kids' := cur, kids;
      var oi := IndexOf(cur, p.tag);
      if oi != i {
        MoveFacts(T0, s, X, cur, kids, oi, i);
        kids' := MoveChild(kids, oi, i, p.expanded);
        cur' := Move(cur, oi, i);
        root := Put(root, s, At(root, s).(children := kids'));
      }
    }

    /** takeChild(oi), which detaches the item and so collapses it, then
        insertChild(i, item) and setExpanded with the recorded flag. */
    static method MoveChild(kids: seq<Node>, oi: nat, i: nat, expanded: bool) returns (r: seq<Node>)
      requires oi < |kids| && i < |kids| && kids[oi].item.expanded == expanded
      ensures r == Move(kids, oi, i)
    {
      var item := kids[oi];
      r := kids[..oi] + kids[oi + 1..];
      item := item.(item := item.item.(expanded := false));
      r := r[..i] + [item] + r[i..];
      r := r[i := r[i].(item := r[i].item.(expanded := expanded))];
      MoveRestore(kids, oi, i, expanded);
    }

    /** The moves: item i of the sorted item_list is found among the
        children and, unless it is already at i, taken out (which collapses
        it), inserted at i and given back its recorded expanded flag.
        Returns the final order, each child named by its position before. */
    method Reinsert(s: seq<nat>, sorted: seq<ItemState>) returns (order: seq<nat>)
      requires ValidPath(root, s) && DistinctTags(sorted, |At(root, s).children|)
      requires forall k :: 0 <= k < |sorted| ==>
                 sorted[k].expanded == At(root, s).children[sorted[k].tag].item.expanded
      modifies this
      ensures ValidPath(old(root), s)
      ensures order == Placed(sorted, |At(old(root), s).children|, |sorted|)
      ensures TagsBelow(order, |At(old(root), s).children|)
      ensures root == Put(old(root), s, At(old(root), s).(children := TagNodes(order, At(old(root), s).children)))
      ensures index == old(index) && sortColumn == old(sortColumn) && sortAscending == old(sortAscending)
    {
      ghost var T0 := root;
      var X := At(root, s);
      var cs := X.children;
      var cur: seq<nat> := seq(|cs|, k => k);
      var kids := cs;
      PlacedNone(sorted, |cs|);
      PutSame(T0, s);
      for i := 0 to |sorted|
        invariant cur == Placed(sorted, |cs|, i) && TagsBelow(cur, |cs|)
        invariant kids == TagNodes(cur, cs)
        invariant root == Put(T0, s, X.(children := kids))
        invariant index == old(index) && sortColumn == old(sortColumn) && sortAscending == old(sortAscending)
      {
        cur, kids := PlaceItem(s, sorted, i, cur, kids, T0, X);
      }
      order := cur;
    }
  }

  /** Moving child oi to position i of the level at s: the tags move with
      the children, and writing the moved children back over the level is
      writing them over the original tree. */
  lemma MoveFacts(T0: Node, s: seq<nat>, X: Node, cur: seq<nat>, kids: seq<Node>, oi: nat, i: nat)
    requires ValidPath(T0, s) && TagsBelow(cur, |X.children|) && oi < |cur| && i < |cur|
    requires kids == TagNodes(cur, X.children)
    ensures TagsBelow(Move(cur, oi, i), |X.children|)
    ensures TagNodes(Move(cur, oi, i), X.children) == Move(kids, oi, i)
    ensures ValidPath(Put(T0, s, X.(children := kids)), s)
    ensures At(Put(T0, s, X.(children := kids)), s) == X.(children := kids)
    ensures Put(Put(T0, s, X.(children := kids)), s, X.(children := Move(kids, oi, i)))
            == Put(T0, s, X.(children := Move(kids, oi, i)))
  {
    TagNodesMove(cur, X.children, oi, i);
    PutTwice(T0, s, X.(children := kids), X.(children := Move(kids, oi, i)));
    PutFacts(T0, s, X.(children := kids), s);
    assert s[|s|..] == [];
  }

  /** After refreshIndex nothing is hidden, expanded or selected, and every
      level sortItems reaches is in order. */
  lemma RefreshFacts(it: Item, fi: FileIndex, col: SortColumn, ascending: bool)
    ensures var R := SortNode(Node(it, BuildAll(fi.children)), col, ascending);
      |R.children| == |fi.children| && SortedBelow(R, col, ascending)
      && forall c :: c in R.children ==> Clear(c)
  {
    var X := Node(it, BuildAll(fi.children));
    forall c | c in X.children ensures Clear(c) {
      var i :| 0 <= i < |fi.children| && X.children[i] == c;
      BuildClear(fi.children[i]);
    }
    SortKeepsClear(X, col, ascending);
    SortNodeSorted(X, col, ascending);
    SortNodeTop(X, col, ascending);
  }

  /** The selected item setIndex merges a file index into: there is one
      only when the outline shows a directory, the new index is a file, and
      the selected item's index node is a file with no children yet. */
  function MergeTarget(T: Node, idx: FileIndex, fi: FileIndex): (r: Option<seq<nat>>)
    ensures r.Some? ==> SelectedAt(T, r.value) && Locate(idx, Chain(T, r.value)).Some?
    ensures r.Some? ==> idx.entry.kind == Dir && fi.entry.kind == File
    ensures r.Some? ==> var pos := Locate(idx, Chain(T, r.value)).value;
      NodeAt(idx, pos).entry.kind == File && NodeAt(idx, pos).children == []
  {
    if idx.entry.kind != Dir then None
    else match FirstSelected(T)
      case None => None
      case Some(p) =>
        match Locate(idx, Chain(T, p))
        case None => None
        case Some(pos) =>
          if NodeAt(idx, pos).entry.kind == File && fi.entry.kind == File && NodeAt(idx, pos).children == []
          then Some(p) else None
  }

  /** A merge into an item that had no children leaves that item with one
      child per node the index gained, each mirroring its index node. */
  lemma MergeMirrors(T: Node, idx: FileIndex, fi: FileIndex, p: seq<nat>)
    requires MergeTarget(T, idx, fi) == Some(p) && At(T, p).children == []
    ensures var pos := Locate(idx, Chain(T, p)).value;
      var idx2 := EditAt(idx, Chain(T, p), AppendChildren(fi.children));
      var T2 := Put(T, p, At(T, p).(children := At(T, p).children + BuildAll(fi.children)));
      ValidPath(T2, p) && IsPos(idx2, pos)
      && StripAll(At(T2, p).children) == NodeAt(idx2, pos).children == fi.children
  {
    var X := At(T, p).(children := At(T, p).children + BuildAll(fi.children));
    PutFacts(T, p, X, p);
    assert p[|p|..] == [];
    assert X.children == BuildAll(fi.children);
    forall i | 0 <= i < |fi.children| ensures StripAll(X.children)[i] == fi.children[i] {
      StripBuild(fi.children[i]);
    }
  }

  /** onFileRename acts: the first selected item is a file, the trimmed
      name is not empty and the file system renamed the file. */
  predicate RenameApplies(T: Node, nn: string, renamed: bool)
  {
    FirstSelected(T).Some? && ValidPath(T, FirstSelected(T).value)
    && At(T, FirstSelected(T).value).item.entry.kind == File && nn != [] && renamed
  }

  /** The item with the new name as its path and the name's last part as
      its title. */
  function Renamed(it: Item, nn: string): Item
  {
    it.(entry := it.entry.(path := nn, title := TitleFromPath(nn)))
  }

  /** After a rename the item and the index node its entry chain resolved
      to carry the same entry again: the trimmed name as path and a title
      without '/' that ends the path. */
  lemma RenameAgrees(T: Node, idx: FileIndex, p: seq<nat>, nn: string)
    requires SelectedAt(T, p) && Locate(idx, Chain(T, p)).Some?
    ensures var t := TitleFromPath(nn);
      var T2 := SetItem(T, p, Renamed(At(T, p).item, nn));
      var idx2 := EditAt(idx, Chain(T, p), SetPath(nn, t));
      var pos := Locate(idx, Chain(T, p)).value;
      ValidPath(T2, p) && IsPos(idx2, pos)
      && NodeAt(idx2, pos).entry == At(T2, p).item.entry
      && At(T2, p).item.entry.path == nn && '/' !in At(T2, p).item.entry.title
      && nn[|nn| - |t|..] == t
  {
    SetItemFacts(T, p, Renamed(At(T, p).item, nn));
    ChainLast(T, p);
  }

  /** The last entry of an item's chain is the item's own entry. */
  lemma {:induction false} ChainLast(T: Node, p: seq<nat>)
    requires ValidPath(T, p) && p != []
    ensures Chain(T, p)[|p| - 1] == At(T, p).item.entry
    decreases p
  {
    if p[1..] != [] {
      ChainLast(T.children[p[0]], p[1..]);
    }
  }
}
