/** The tree states filterItemBy passes through, stated against the tree
    the pass started from, and the steps between them. */
module FilterStep {
  import opened Index
  import opened Tree
  import opened Filter
  import opened FilterWalk

  /** At q, T is T0 with the hidden flag the walk with `stack` still to do has left. */
  ghost predicate FlagAt(T0: Node, T: Node, spec: Spec, r: seq<nat>, stack: seq<seq<nat>>, q: seq<nat>)
  {
    (ValidPath(T, q) <==> ValidPath(T0, q))
    && (ValidPath(T0, q) ==>
          At(T, q).item == At(T0, q).item.(hidden := Cur(T0, spec, r, stack, q))
          && |At(T, q).children| == |At(T0, q).children|)
  }

  /** T is T0 with the hidden flag of every item replaced as the walk with
      `stack` still to do has left it. */
  ghost predicate Flags(T0: Node, T: Node, spec: Spec, r: seq<nat>, stack: seq<seq<nat>>)
  {
    forall q :: FlagAt(T0, T, spec, r, stack, q)
  }

  /** At q, T is T0 with the hidden flag a whole pass below r gives. */
  ghost predicate FinalAt(T0: Node, T: Node, spec: Spec, r: seq<nat>, q: seq<nat>)
  {
    (ValidPath(T, q) <==> ValidPath(T0, q))
    && (ValidPath(T0, q) ==>
          At(T, q).item == At(T0, q).item.(hidden := Final(T0, spec, r, q))
          && |At(T, q).children| == |At(T0, q).children|)
  }

  /** T is T0 after a whole pass below r: only hidden flags differ, and
      each is the one Final gives. */
  ghost predicate Filtered(T0: Node, T: Node, spec: Spec, r: seq<nat>)
  {
    forall q :: FinalAt(T0, T, spec, r, q)
  }

  /** T is T0 after a pass of spec over the whole tree followed by
      expandAll: each item has the hidden flag the pass gives, and is
      expanded when it has children and the pass left nothing on its way
      from the top level hidden; nothing else changes. */
  ghost predicate FilteredExpanded(T0: Node, T: Node, spec: Spec)
  {
    forall q :: q != [] ==>
      (ValidPath(T, q) <==> ValidPath(T0, q))
      && (ValidPath(T0, q) ==>
            At(T, q).item == At(T0, q).item.(hidden := Final(T0, spec, [], q),
                                             expanded := At(T0, q).item.expanded
                                                         || (At(T0, q).children != [] && ShownAfter(T0, spec, q)))
            && |At(T, q).children| == |At(T0, q).children|)
  }

  /** The pass leaves no item from the top level down to q hidden. */
  ghost predicate ShownAfter(T0: Node, spec: Spec, q: seq<nat>)
  {
    forall k :: 1 <= k <= |q| ==> ValidPath(T0, q[..k]) && !Final(T0, spec, [], q[..k])
  }

  /** Expanding after a pass over the whole tree keeps the pass's flags. */
  lemma FilterThenExpand(T0: Node, M: Node, spec: Spec)
    requires Filtered(T0, M, spec, [])
    ensures FilteredExpanded(T0, ExpandBelow(M), spec)
  {
    forall q | q != [] ensures
      (ValidPath(ExpandBelow(M), q) <==> ValidPath(T0, q))
      && (ValidPath(T0, q) ==>
            At(ExpandBelow(M), q).item == At(T0, q).item.(hidden := Final(T0, spec, [], q),
                                             expanded := At(T0, q).item.expanded
                                                         || (At(T0, q).children != [] && ShownAfter(T0, spec, q)))
            && |At(ExpandBelow(M), q).children| == |At(T0, q).children|)
    {
      assert FinalAt(T0, M, spec, [], q);
      ExpandBelowAt(M, q);
      if ValidPath(T0, q) {
        ShownWayAfter(T0, M, spec, q);
      }
    }
  }

  /** After the pass, nothing on the way to q is hidden exactly when the
      pass hid nothing there. */
  lemma ShownWayAfter(T0: Node, M: Node, spec: Spec, q: seq<nat>)
    requires Filtered(T0, M, spec, []) && ValidPath(T0, q)
    ensures ShownWay(M, q) <==> ShownAfter(T0, spec, q)
  {
    forall k | 1 <= k <= |q|
      ensures ValidPath(T0, q[..k]) && ValidPath(M, q[..k])
              && At(M, q[..k]).item.hidden == Final(T0, spec, [], q[..k])
    {
      PrefixValid(T0, q, k);
      assert FinalAt(T0, M, spec, [], q[..k]);
    }
  }

  /** An empty filter text shows every item again and changes nothing
      else. */
  lemma ClearingShowsAll(T0: Node, T: Node)
    requires Filtered(T0, T, Const(true), [])
    ensures forall q :: ValidPath(T, q) <==> ValidPath(T0, q)
    ensures forall q :: q != [] && ValidPath(T0, q) ==> At(T, q).item == At(T0, q).item.(hidden := false)
  {
    forall q ensures (ValidPath(T, q) <==> ValidPath(T0, q))
      && (q != [] && ValidPath(T0, q) ==> At(T, q).item == At(T0, q).item.(hidden := false))
    {
      assert FinalAt(T0, T, Const(true), [], q);
      if q != [] && ValidPath(T0, q) {
        ConstPassFlags(T0, true, [], q);
      }
    }
  }

  /** An item of T0 exists in T with T0's entry and child count. */
  lemma FlagsPath(T0: Node, T: Node, spec: Spec, r: seq<nat>, stack: seq<seq<nat>>, q: seq<nat>)
    requires Flags(T0, T, spec, r, stack) && ValidPath(T0, q)
    ensures ValidPath(T, q) && At(T, q).item.entry == At(T0, q).item.entry
    ensures |At(T, q).children| == |At(T0, q).children|
  {
    assert FlagAt(T0, T, spec, r, stack, q);
  }

  /** The item the top of the stack names exists in T with T0's entry and child count. */
  lemma FlagsTop(T0: Node, T: Node, spec: Spec, r: seq<nat>, stack: seq<seq<nat>>)
    requires StackOk(T0, spec, r, stack) && Flags(T0, T, spec, r, stack) && stack != []
    ensures ValidPath(T0, stack[|stack| - 1]) && ValidPath(T, stack[|stack| - 1])
    ensures At(T, stack[|stack| - 1]).item.entry == At(T0, stack[|stack| - 1]).item.entry
    ensures |At(T, stack[|stack| - 1]).children| == |At(T0, stack[|stack| - 1]).children|
  {
    assert FlagAt(T0, T, spec, r, stack, stack[|stack| - 1]);
  }

  // ---------------------------------------------------------------------
  // Start and end of a pass

  lemma FlagsInitial(T0: Node, spec: Spec, r: seq<nat>)
    requires ValidPath(T0, r)
    ensures StackOk(T0, spec, r, ChildPaths(r, |At(T0, r).children|))
    ensures Flags(T0, T0, spec, r, ChildPaths(r, |At(T0, r).children|))
  {
    CurInitial(T0, spec, r);
  }

  lemma FlagsFinal(T0: Node, T: Node, spec: Spec, r: seq<nat>)
    requires Flags(T0, T, spec, r, [])
    ensures Filtered(T0, T, spec, r)
  {
    forall q
      ensures FinalAt(T0, T, spec, r, q)
    {
      assert FlagAt(T0, T, spec, r, [], q);
      if ValidPath(T0, q) {
        CurFinal(T0, spec, r, q);
      }
    }
  }

  // ---------------------------------------------------------------------
  // Visiting the popped item s

  /** s did not match: it is hidden and the walk moves on to its children. */
  lemma HideTop(T0: Node, T: Node, spec: Spec, r: seq<nat>, s0: seq<seq<nat>>, s: seq<nat>)
    requires StackOk(T0, spec, r, s0 + [s]) && Flags(T0, T, spec, r, s0 + [s])
    requires ValidPath(T0, s) && !Judge(spec, At(T0, s).item.entry).show
    ensures ValidPath(T, s)
    ensures Flags(T0, SetHidden(T, s, true), spec, r, s0 + ChildPaths(s, |At(T0, s).children|))
  {
    assert FlagAt(T0, T, spec, r, s0 + [s], s);
    SetItemFacts(T, s, At(T, s).item.(hidden := true));
    forall q
      ensures FlagAt(T0, SetHidden(T, s, true), spec, r, s0 + ChildPaths(s, |At(T0, s).children|), q)
    {
      assert FlagAt(T0, T, spec, r, s0 + [s], q);
      if ValidPath(T0, q) {
        CurAfterPush(T0, spec, r, s0, s, q);
      }
    }
  }

  /** While the ancestors of a matched item s are being shown: the items on
      the way from s up to p are shown, the rest is as before the visit. */
  ghost function UnhideFlag(T0: Node, spec: Spec, r: seq<nat>, s0: seq<seq<nat>>, s: seq<nat>, p: seq<nat>, q: seq<nat>): bool
    requires ValidPath(T0, q)
  {
    if q != [] && IsPrefix(q, s) && |p| <= |q| then false else Cur(T0, spec, r, s0 + [s], q)
  }

  ghost predicate UnhideAt(T0: Node, T: Node, spec: Spec, r: seq<nat>, s0: seq<seq<nat>>, s: seq<nat>, p: seq<nat>, q: seq<nat>)
  {
    (ValidPath(T, q) <==> ValidPath(T0, q))
    && (ValidPath(T0, q) ==>
          At(T, q).item == At(T0, q).item.(hidden := UnhideFlag(T0, spec, r, s0, s, p, q))
          && |At(T, q).children| == |At(T0, q).children|)
  }

  ghost predicate Unhiding(T0: Node, T: Node, spec: Spec, r: seq<nat>, s0: seq<seq<nat>>, s: seq<nat>, p: seq<nat>)
  {
    forall q :: UnhideAt(T0, T, spec, r, s0, s, p, q)
  }

  /** s matched: it is shown first. */
  lemma ShowTop(T0: Node, T: Node, spec: Spec, r: seq<nat>, s0: seq<seq<nat>>, s: seq<nat>)
    requires StackOk(T0, spec, r, s0 + [s]) && Flags(T0, T, spec, r, s0 + [s])
    ensures ValidPath(T, s) && s != []
    ensures Unhiding(T0, SetHidden(T, s, false), spec, r, s0, s, s)
  {
    assert (s0 + [s])[|s0|] == s;
    assert FlagAt(T0, T, spec, r, s0 + [s], s);
    SetItemFacts(T, s, At(T, s).item.(hidden := false));
    forall q
      ensures UnhideAt(T0, SetHidden(T, s, false), spec, r, s0, s, s, q)
    {
      assert FlagAt(T0, T, spec, r, s0 + [s], q);
      if q != [] && IsPrefix(q, s) && |s| <= |q| {
        assert q == s;
      }
    }
  }

  /** One step up the ancestor chain: the parent of p is shown. */
  lemma ShowParent(T0: Node, T: Node, spec: Spec, r: seq<nat>, s0: seq<seq<nat>>, s: seq<nat>, p: seq<nat>)
    requires Unhiding(T0, T, spec, r, s0, s, p)
    requires ValidPath(T0, s) && IsPrefix(p, s) && |p| > 1
    ensures ValidPath(T, Parent(p))
    ensures Unhiding(T0, SetHidden(T, Parent(p), false), spec, r, s0, s, Parent(p))
  {
    var pp := Parent(p);
    PrefixValid(T0, s, |pp|);
    assert s[..|pp|] == pp by { assert pp == p[..|pp|]; }
    assert UnhideAt(T0, T, spec, r, s0, s, p, pp);
    SetItemFacts(T, pp, At(T, pp).item.(hidden := false));
    forall q
      ensures UnhideAt(T0, SetHidden(T, pp, false), spec, r, s0, s, pp, q)
    {
      assert UnhideAt(T0, T, spec, r, s0, s, p, q);
      if q != [] && IsPrefix(q, s) && |q| == |pp| {
        assert q == pp;
      }
    }
  }

  /** The chain has reached the top level: the visit of s is complete and
      the walk moves on to s's children. */
  lemma ShowDone(T0: Node, T: Node, spec: Spec, r: seq<nat>, s0: seq<seq<nat>>, s: seq<nat>, p: seq<nat>)
    requires StackOk(T0, spec, r, s0 + [s]) && Unhiding(T0, T, spec, r, s0, s, p) && |p| <= 1
    requires ValidPath(T0, s) && Judge(spec, At(T0, s).item.entry).show
    ensures Flags(T0, T, spec, r, s0 + ChildPaths(s, |At(T0, s).children|))
  {
    forall q
      ensures FlagAt(T0, T, spec, r, s0 + ChildPaths(s, |At(T0, s).children|), q)
    {
      assert UnhideAt(T0, T, spec, r, s0, s, p, q);
      if ValidPath(T0, q) {
        CurAfterPush(T0, spec, r, s0, s, q);
      }
    }
  }

  // ---------------------------------------------------------------------
  // The blanket step

  /** A constant pass below s on a tree M: the items strictly below s get
      the constant; the others keep their flag, since when the constant
      shows, s and every item above it are shown already. */
  lemma ConstPassFlags(M: Node, b: bool, s: seq<nat>, q: seq<nat>)
    requires ValidPath(M, s) && ValidPath(M, q)
    requires b && q != [] && IsPrefix(q, s) ==> !At(M, q).item.hidden
    ensures Final(M, Const(b), s, q) == if IsPrefix(s, q) && |s| < |q| then !b else At(M, q).item.hidden
  {
    if IsPrefix(s, q) && |s| < |q| {
      ConstReach(M, b, s, q);
    } else if !b {
      forall d | IsPrefix(s, d) && |s| < |d| && ValidPath(M, d)
        ensures !Eff(M, Const(b), s, d)
      {
        assert Free(M, Const(b), s, d);
        EffOfFree(M, Const(b), s, d);
      }
    }
  }

  /** After the children of a blanket file s received its verdict, the walk
      goes on with the rest of the stack. */
  lemma BlanketDone(T0: Node, M: Node, T: Node, spec: Spec, r: seq<nat>, s0: seq<seq<nat>>, s: seq<nat>)
    requires StackOk(T0, spec, r, s0 + [s]) && ValidPath(T0, s)
    requires Blanket(spec, At(T0, s).item.entry)
    requires Flags(T0, M, spec, r, s0 + ChildPaths(s, |At(T0, s).children|))
    requires Filtered(M, T, Const(Judge(spec, At(T0, s).item.entry).show), s)
    ensures StackOk(T0, spec, r, s0)
    ensures Flags(T0, T, spec, r, s0)
  {
    var m := Judge(spec, At(T0, s).item.entry).show;
    var st' := s0 + ChildPaths(s, |At(T0, s).children|);
    StackAfterPop(T0, spec, r, s0, s);
    assert FlagAt(T0, M, spec, r, st', s);
    forall q
      ensures FlagAt(T0, T, spec, r, s0, q)
    {
      assert FlagAt(T0, M, spec, r, st', q);
      assert FinalAt(M, T, Const(m), s, q);
      if ValidPath(T0, q) {
        if m && q != [] && IsPrefix(q, s) {
          CurAfterPush(T0, spec, r, s0, s, q);
        }
        ConstPassFlags(M, m, s, q);
        CurAfterBlanket(T0, spec, r, s0, s, q);
      }
    }
  }

  // ---------------------------------------------------------------------
  // Termination: the items still to visit

  /** The number of items at or below the entries of the stack. */
  function Weight(T0: Node, stack: seq<seq<nat>>): nat
  {
    if stack == [] then 0
    else
      var top := stack[|stack| - 1];
      Weight(T0, stack[..|stack| - 1]) + (if ValidPath(T0, top) then Size(At(T0, top)) else 0)
  }

  lemma {:induction false} WeightChildren(T0: Node, s0: seq<seq<nat>>, s: seq<nat>, k: nat)
    requires ValidPath(T0, s) && k <= |At(T0, s).children|
    ensures Weight(T0, s0 + ChildPaths(s, k)) == Weight(T0, s0) + SizeAll(At(T0, s).children[..k])
    decreases k
  {
    var cs := At(T0, s).children;
    if k == 0 {
      assert s0 + ChildPaths(s, 0) == s0;
      assert cs[..0] == [];
    } else {
      WeightChildren(T0, s0, s, k - 1);
      var st := s0 + ChildPaths(s, k);
      assert st[..|st| - 1] == s0 + ChildPaths(s, k - 1);
      ChildPath(T0, s, k - 1);
      assert cs[..k][..k - 1] == cs[..k - 1];
    }
  }

  /** Replacing the top entry by its children removes exactly the top item. */
  lemma WeightAfterPush(T0: Node, s0: seq<seq<nat>>, s: seq<nat>)
    requires ValidPath(T0, s)
    ensures Weight(T0, s0 + ChildPaths(s, |At(T0, s).children|)) < Weight(T0, s0 + [s])
  {
    var cs := At(T0, s).children;
    WeightChildren(T0, s0, s, |cs|);
    assert cs[..|cs|] == cs;
    assert (s0 + [s])[..|s0|] == s0;
  }

  lemma WeightAfterPop(T0: Node, s0: seq<seq<nat>>, s: seq<nat>)
    requires ValidPath(T0, s)
    ensures Weight(T0, s0) < Weight(T0, s0 + [s])
  {
    assert (s0 + [s])[..|s0|] == s0;
  }
}
