/** The state of filterItemBy's explicit-stack walk: which items are still
    waiting on the stack, which visited ones matched, and the hidden flag
    every item has at that point. */
module FilterWalk {
  import opened Index
  import opened Tree
  import opened Filter

  /** q is on the stack or below an item on the stack: not yet visited. */
  ghost predicate Pending(stack: seq<seq<nat>>, q: seq<nat>)
  {
    exists i :: 0 <= i < |stack| && IsPrefix(stack[i], q)
  }

  /** d lies below r, has been visited, and its verdict shows it. */
  ghost predicate Hit(n: Node, spec: Spec, r: seq<nat>, stack: seq<seq<nat>>, d: seq<nat>)
  {
    IsPrefix(r, d) && |r| < |d| && ValidPath(n, d) && !Pending(stack, d) && Eff(n, spec, r, d)
  }

  /** Some visited item below r matched. */
  ghost predicate AnyHit(n: Node, spec: Spec, r: seq<nat>, stack: seq<seq<nat>>)
  {
    exists d :: Hit(n, spec, r, stack, d)
  }

  /** Some visited item at or below q matched. */
  ghost predicate HitBelow(n: Node, spec: Spec, r: seq<nat>, stack: seq<seq<nat>>, q: seq<nat>)
  {
    exists d :: Hit(n, spec, r, stack, d) && IsPrefix(q, d)
  }

  /** The hidden flag of q while `stack` is still to be walked: a visited
      item below r is hidden unless a visited match lies at or below it; the
      items from the top level down to r are shown once anything matched;
      every other item keeps the flag it had. */
  ghost function Cur(n: Node, spec: Spec, r: seq<nat>, stack: seq<seq<nat>>, q: seq<nat>): bool
    requires ValidPath(n, q)
  {
    if IsPrefix(r, q) && |r| < |q| && !Pending(stack, q) then
      !HitBelow(n, spec, r, stack, q)
    else if q != [] && IsPrefix(q, r) then
      At(n, q).item.hidden && !AnyHit(n, spec, r, stack)
    else
      At(n, q).item.hidden
  }

  /** The hidden flag of q after a whole pass below r. */
  ghost function Final(n: Node, spec: Spec, r: seq<nat>, q: seq<nat>): bool
    requires ValidPath(n, q)
  {
    if IsPrefix(r, q) && |r| < |q| then !Reach(n, spec, r, q)
    else if q != [] && IsPrefix(q, r) then At(n, q).item.hidden && !AnyShown(n, spec, r)
    else At(n, q).item.hidden
  }

  /** Every stack entry is a valid item below r that no blanket file covers,
      and no entry lies below another. */
  ghost predicate StackOk(n: Node, spec: Spec, r: seq<nat>, stack: seq<seq<nat>>)
  {
    (forall i :: 0 <= i < |stack| ==>
       ValidPath(n, stack[i]) && IsPrefix(r, stack[i]) && |r| < |stack[i]| && Free(n, spec, r, stack[i]))
    && (forall i, j :: 0 <= i < |stack| && 0 <= j < |stack| && i != j ==> !IsPrefix(stack[i], stack[j]))
  }

  /** The paths of the first k children of the item at s. */
  function ChildPaths(s: seq<nat>, k: nat): (cs: seq<seq<nat>>)
    ensures |cs| == k && forall j :: 0 <= j < k ==> cs[j] == s + [j]
  {
    seq(k, j requires 0 <= j < k => s + [j])
  }

  lemma PrefixOfChild(s: seq<nat>, j: nat, q: seq<nat>)
    ensures IsPrefix(s + [j], q) <==> IsPrefix(s, q) && |s| < |q| && q[|s|] == j
  {
    if IsPrefix(s, q) && |s| < |q| && q[|s|] == j {
      assert q[..|s| + 1] == q[..|s|] + [q[|s|]];
    }
    if IsPrefix(s + [j], q) {
      assert q[..|s|] == (s + [j])[..|s|];
    }
  }

  lemma PrefixTrans(a: seq<nat>, b: seq<nat>, c: seq<nat>)
    requires IsPrefix(a, b) && IsPrefix(b, c)
    ensures IsPrefix(a, c)
  {
    assert c[..|a|] == c[..|b|][..|a|];
  }

  /** Two prefixes of the same path are comparable. */
  lemma PrefixComparable(a: seq<nat>, b: seq<nat>, c: seq<nat>)
    requires IsPrefix(a, c) && IsPrefix(b, c)
    ensures IsPrefix(a, b) || IsPrefix(b, a)
  {
    if |a| <= |b| {
      assert b[..|a|] == c[..|b|][..|a|];
    } else {
      assert a[..|b|] == c[..|a|][..|b|];
    }
  }

  /** At the start of a pass nothing below r has been visited and every flag is as it was. */
  lemma CurInitial(n: Node, spec: Spec, r: seq<nat>)
    requires ValidPath(n, r)
    ensures StackOk(n, spec, r, ChildPaths(r, |At(n, r).children|))
    ensures forall q :: ValidPath(n, q) ==>
      Cur(n, spec, r, ChildPaths(r, |At(n, r).children|), q) == At(n, q).item.hidden
  {
    var st := ChildPaths(r, |At(n, r).children|);
    InitialStackOk(n, spec, r);
    forall d | IsPrefix(r, d) && |r| < |d| && ValidPath(n, d)
      ensures Pending(st, d)
    {
      InitialPending(n, r, d);
    }
    forall q | ValidPath(n, q)
      ensures Cur(n, spec, r, st, q) == At(n, q).item.hidden
    {
      assert forall d :: !Hit(n, spec, r, st, d);
    }
  }

  /** The children of r make a well-formed stack. */
  lemma InitialStackOk(n: Node, spec: Spec, r: seq<nat>)
    requires ValidPath(n, r)
    ensures StackOk(n, spec, r, ChildPaths(r, |At(n, r).children|))
  {
    var cnt := |At(n, r).children|;
    var st := ChildPaths(r, cnt);
    forall i | 0 <= i < cnt
      ensures ValidPath(n, st[i]) && IsPrefix(r, st[i]) && |r| < |st[i]| && Free(n, spec, r, st[i])
    {
      ChildPath(n, r, i);
      assert Free(n, spec, r, r);
      FreeChild(n, spec, r, r, i);
      assert st[i][..|r|] == r;
    }
    forall i, j | 0 <= i < cnt && 0 <= j < cnt && i != j
      ensures !IsPrefix(st[i], st[j])
    {
      PrefixOfChild(r, i, st[j]);
      assert st[j][|r|] == j;
    }
  }

  /** Every item strictly below r lies below one of r's children. */
  lemma InitialPending(n: Node, r: seq<nat>, d: seq<nat>)
    requires ValidPath(n, r) && IsPrefix(r, d) && |r| < |d| && ValidPath(n, d)
    ensures Pending(ChildPaths(r, |At(n, r).children|), d)
  {
    var st := ChildPaths(r, |At(n, r).children|);
    PrefixValid(n, d, |r| + 1);
    assert d[..|r| + 1] == r + [d[|r|]];
    PathConcat(n, r, [d[|r|]]);
    ChildPath(n, r, d[|r|]);
    PrefixOfChild(r, d[|r|], d);
    assert IsPrefix(st[d[|r|]], d);
  }

  /** When the stack is empty the walk's flags are the pass's result. */
  lemma CurFinal(n: Node, spec: Spec, r: seq<nat>, q: seq<nat>)
    requires ValidPath(n, q)
    ensures Cur(n, spec, r, [], q) == Final(n, spec, r, q)
  {
    assert forall d :: !Pending([], d);
    if IsPrefix(r, q) && |r| < |q| {
      if Reach(n, spec, r, q) {
        var d :| IsPrefix(r, d) && |r| < |d| && ValidPath(n, d) && IsPrefix(q, d) && Eff(n, spec, r, d);
        assert Hit(n, spec, r, [], d);
      }
    } else if q != [] && IsPrefix(q, r) {
      if AnyShown(n, spec, r) {
        var d :| IsPrefix(r, d) && |r| < |d| && ValidPath(n, d) && Eff(n, spec, r, d);
        assert Hit(n, spec, r, [], d);
      }
    }
  }

  /** Which items are pending after the top entry s is replaced by its children. */
  lemma PendingAfterPush(n: Node, spec: Spec, r: seq<nat>, s0: seq<seq<nat>>, s: seq<nat>, q: seq<nat>)
    requires StackOk(n, spec, r, s0 + [s]) && ValidPath(n, q) && ValidPath(n, s)
    ensures Pending(s0 + ChildPaths(s, |At(n, s).children|), q) <==> Pending(s0 + [s], q) && q != s
    ensures Pending(s0 + [s], q) <==> Pending(s0, q) || IsPrefix(s, q)
  {
    var st := s0 + [s];
    var cnt := |At(n, s).children|;
    var st' := s0 + ChildPaths(s, cnt);
    assert st[|s0|] == s;
    PendingOfConcat(s0, [s], q);
    PendingOfConcat(s0, ChildPaths(s, cnt), q);
    if Pending(s0, q) {
      var i :| 0 <= i < |s0| && IsPrefix(s0[i], q);
      assert st[i] == s0[i];
      assert !IsPrefix(st[i], st[|s0|]);
    }
    PendingChildren(n, s, q);
  }

  lemma PendingOfConcat(a: seq<seq<nat>>, b: seq<seq<nat>>, q: seq<nat>)
    ensures Pending(a + b, q) <==> Pending(a, q) || Pending(b, q)
  {
    if Pending(a + b, q) {
      var i :| 0 <= i < |a + b| && IsPrefix((a + b)[i], q);
      if i >= |a| {
        assert b[i - |a|] == (a + b)[i];
      }
    }
    if Pending(b, q) {
      var i :| 0 <= i < |b| && IsPrefix(b[i], q);
      assert (a + b)[|a| + i] == b[i];
    }
    if Pending(a, q) {
      var i :| 0 <= i < |a| && IsPrefix(a[i], q);
      assert (a + b)[i] == a[i];
    }
  }

  /** Below the children of s lie exactly the items strictly below s. */
  lemma PendingChildren(n: Node, s: seq<nat>, q: seq<nat>)
    requires ValidPath(n, s) && ValidPath(n, q)
    ensures Pending(ChildPaths(s, |At(n, s).children|), q) <==> IsPrefix(s, q) && |s| < |q|
    ensures Pending([s], q) <==> IsPrefix(s, q)
  {
    var cs := ChildPaths(s, |At(n, s).children|);
    assert [s][0] == s;
    if Pending(cs, q) {
      var j :| 0 <= j < |cs| && IsPrefix(cs[j], q);
      PrefixOfChild(s, j, q);
    }
    if IsPrefix(s, q) && |s| < |q| {
      var j := q[|s|];
      PrefixValid(n, q, |s| + 1);
      PrefixOfChild(s, j, q);
      assert q[..|s| + 1] == s + [j];
      ChildPath(n, s, j);
      assert IsPrefix(cs[j], q);
    }
  }

  /** Prefixing is transitive (stated without a precondition). */
  lemma PrefixChain(a: seq<nat>, b: seq<nat>, c: seq<nat>)
    ensures IsPrefix(a, b) && IsPrefix(b, c) ==> IsPrefix(a, c)
  {
    if IsPrefix(a, b) && IsPrefix(b, c) {
      PrefixTrans(a, b, c);
    }
  }

  /** Nothing at or below the top entry s has been visited. */
  lemma TopSubtreePending(stack: seq<seq<nat>>, s: seq<nat>, q: seq<nat>)
    requires |stack| > 0 && stack[|stack| - 1] == s && IsPrefix(s, q)
    ensures Pending(stack, q)
  {
  }

  /** The items above the top entry s are not pending. */
  lemma AncestorNotPending(n: Node, spec: Spec, r: seq<nat>, stack: seq<seq<nat>>, s: seq<nat>, q: seq<nat>)
    requires StackOk(n, spec, r, stack) && |stack| > 0 && stack[|stack| - 1] == s
    requires IsPrefix(q, s) && |q| < |s|
    ensures !Pending(stack, q)
  {
    forall i | 0 <= i < |stack|
      ensures !IsPrefix(stack[i], q)
    {
      PrefixChain(stack[i], q, s);
    }
  }

  /** The stack stays well formed when its top entry is replaced by the entry's children. */
  lemma StackAfterPush(n: Node, spec: Spec, r: seq<nat>, s0: seq<seq<nat>>, s: seq<nat>)
    requires StackOk(n, spec, r, s0 + [s])
    requires ValidPath(n, s) && !Blanket(spec, At(n, s).item.entry)
    ensures StackOk(n, spec, r, s0 + ChildPaths(s, |At(n, s).children|))
  {
    var st := s0 + [s];
    assert st[|s0|] == s;
    var cnt := |At(n, s).children|;
    var st' := s0 + ChildPaths(s, cnt);
    forall i | 0 <= i < |st'|
      ensures ValidPath(n, st'[i]) && IsPrefix(r, st'[i]) && |r| < |st'[i]| && Free(n, spec, r, st'[i])
    {
      if i < |s0| {
        assert st'[i] == st[i];
      } else {
        var j := i - |s0|;
        ChildPath(n, s, j);
        FreeChild(n, spec, r, s, j);
        PrefixOfChild(s, j, s + [j]);
        PrefixTrans(r, s, s + [j]);
      }
    }
    forall i, j | 0 <= i < |st'| && 0 <= j < |st'| && i != j
      ensures !IsPrefix(st'[i], st'[j])
    {
      if i < |s0| && j < |s0| {
        assert st'[i] == st[i] && st'[j] == st[j];
      } else if i < |s0| {
        assert st'[i] == st[i];
        PrefixOfChild(s, j - |s0|, st'[j]);
        assert !IsPrefix(st[i], st[|s0|]) && !IsPrefix(st[|s0|], st[i]);
        if IsPrefix(st'[i], st'[j]) {
          PrefixComparable(st[i], s, st'[j]);
        }
      } else if j < |s0| {
        assert st'[j] == st[j];
        PrefixOfChild(s, i - |s0|, st'[j]);
        assert !IsPrefix(st[|s0|], st[j]);
      } else {
        PrefixOfChild(s, i - |s0|, st'[j]);
      }
    }
  }

  /** After visiting s the visited matches are the old ones plus s when it matched. */
  lemma HitAfterPush(n: Node, spec: Spec, r: seq<nat>, s0: seq<seq<nat>>, s: seq<nat>, d: seq<nat>)
    requires StackOk(n, spec, r, s0 + [s]) && ValidPath(n, d)
    ensures ValidPath(n, s)
    ensures Hit(n, spec, r, s0 + ChildPaths(s, |At(n, s).children|), d) <==>
      Hit(n, spec, r, s0 + [s], d) || (d == s && Judge(spec, At(n, s).item.entry).show)
  {
    assert (s0 + [s])[|s0|] == s;
    EffOfFree(n, spec, r, s);
    PendingAfterPush(n, spec, r, s0, s, d);
    PendingAfterPush(n, spec, r, s0, s, s);
  }

  lemma AnyAfterPush(n: Node, spec: Spec, r: seq<nat>, s0: seq<seq<nat>>, s: seq<nat>)
    requires StackOk(n, spec, r, s0 + [s])
    ensures ValidPath(n, s)
    ensures AnyHit(n, spec, r, s0 + ChildPaths(s, |At(n, s).children|)) <==>
      AnyHit(n, spec, r, s0 + [s]) || Judge(spec, At(n, s).item.entry).show
  {
    assert (s0 + [s])[|s0|] == s;
    var st' := s0 + ChildPaths(s, |At(n, s).children|);
    HitAfterPush(n, spec, r, s0, s, s);
    if AnyHit(n, spec, r, st') {
      var d :| Hit(n, spec, r, st', d);
      HitAfterPush(n, spec, r, s0, s, d);
    }
    if AnyHit(n, spec, r, s0 + [s]) {
      var d :| Hit(n, spec, r, s0 + [s], d);
      HitAfterPush(n, spec, r, s0, s, d);
    }
  }

  lemma BelowAfterPush(n: Node, spec: Spec, r: seq<nat>, s0: seq<seq<nat>>, s: seq<nat>, q: seq<nat>)
    requires StackOk(n, spec, r, s0 + [s])
    ensures ValidPath(n, s)
    ensures HitBelow(n, spec, r, s0 + ChildPaths(s, |At(n, s).children|), q) <==>
      HitBelow(n, spec, r, s0 + [s], q) || (Judge(spec, At(n, s).item.entry).show && IsPrefix(q, s))
  {
    assert (s0 + [s])[|s0|] == s;
    var st' := s0 + ChildPaths(s, |At(n, s).children|);
    HitAfterPush(n, spec, r, s0, s, s);
    if HitBelow(n, spec, r, st', q) {
      var d :| Hit(n, spec, r, st', d) && IsPrefix(q, d);
      HitAfterPush(n, spec, r, s0, s, d);
    }
    if HitBelow(n, spec, r, s0 + [s], q) {
      var d :| Hit(n, spec, r, s0 + [s], d) && IsPrefix(q, d);
      HitAfterPush(n, spec, r, s0, s, d);
    }
  }

  /** No item at or below the top entry has been visited. */
  lemma NoHitBelowTop(n: Node, spec: Spec, r: seq<nat>, stack: seq<seq<nat>>, s: seq<nat>, q: seq<nat>)
    requires |stack| > 0 && stack[|stack| - 1] == s && IsPrefix(s, q)
    ensures !HitBelow(n, spec, r, stack, q)
  {
    forall d | IsPrefix(q, d)
      ensures !Hit(n, spec, r, stack, d)
    {
      PrefixTrans(s, q, d);
      TopSubtreePending(stack, s, d);
    }
  }

  /** Visiting the top entry s of a pass and pushing its children: s gets its
      own verdict, and when it matched every item above it is shown. */
  lemma {:induction false} CurAfterPush(n: Node, spec: Spec, r: seq<nat>, s0: seq<seq<nat>>, s: seq<nat>, q: seq<nat>)
    requires StackOk(n, spec, r, s0 + [s]) && ValidPath(n, q)
    ensures ValidPath(n, s)
    ensures Cur(n, spec, r, s0 + ChildPaths(s, |At(n, s).children|), q) ==
        var m := Judge(spec, At(n, s).item.entry).show;
        if q == s then !m
        else if q != [] && IsPrefix(q, s) && |q| < |s| then Cur(n, spec, r, s0 + [s], q) && !m
        else Cur(n, spec, r, s0 + [s], q)
  {
    var st := s0 + [s];
    assert st[|s0|] == s;
    EffOfFree(n, spec, r, s);
    PendingAfterPush(n, spec, r, s0, s, q);
    AnyAfterPush(n, spec, r, s0, s);
    BelowAfterPush(n, spec, r, s0, s, q);
    assert IsPrefix(s, s);
    if IsPrefix(s, q) {
      NoHitBelowTop(n, spec, r, st, s, q);
    }
    if q != [] && IsPrefix(q, s) && |q| < |s| {
      AncestorNotPending(n, spec, r, st, s, q);
      PrefixComparable(r, q, s);
    }
  }

  // ---------------------------------------------------------------------
  // The blanket step: the popped file hands its verdict to its subtree.

  /** Dropping the top entry of the stack keeps it well formed. */
  lemma StackAfterPop(n: Node, spec: Spec, r: seq<nat>, s0: seq<seq<nat>>, s: seq<nat>)
    requires StackOk(n, spec, r, s0 + [s])
    ensures StackOk(n, spec, r, s0)
  {
    var st := s0 + [s];
    assert forall i :: 0 <= i < |s0| ==> st[i] == s0[i];
  }

  /** An item strictly below the top entry is pending on no other entry. */
  lemma BelowTopOnlyOnTop(n: Node, spec: Spec, r: seq<nat>, s0: seq<seq<nat>>, s: seq<nat>, d: seq<nat>)
    requires StackOk(n, spec, r, s0 + [s]) && IsPrefix(s, d)
    ensures !Pending(s0, d)
  {
    var st := s0 + [s];
    assert st[|s0|] == s;
    forall i | 0 <= i < |s0|
      ensures !IsPrefix(s0[i], d)
    {
      assert st[i] == s0[i];
      assert !IsPrefix(st[i], st[|s0|]) && !IsPrefix(st[|s0|], st[i]);
      if IsPrefix(s0[i], d) {
        PrefixComparable(s0[i], s, d);
      }
    }
  }

  /** Once the subtree of a blanket file is done, an item is a visited match
      when it was one before or lies strictly below the file that matched. */
  lemma HitAfterBlanket(n: Node, spec: Spec, r: seq<nat>, s0: seq<seq<nat>>, s: seq<nat>, d: seq<nat>)
    requires StackOk(n, spec, r, s0 + [s])
    requires ValidPath(n, s) && Blanket(spec, At(n, s).item.entry)
    ensures Hit(n, spec, r, s0, d) <==>
      Hit(n, spec, r, s0 + ChildPaths(s, |At(n, s).children|), d) ||
      (IsPrefix(s, d) && |s| < |d| && ValidPath(n, d) && Judge(spec, At(n, s).item.entry).show)
  {
    var st := s0 + [s];
    assert st[|s0|] == s;
    var st' := s0 + ChildPaths(s, |At(n, s).children|);
    PendingOfConcat(s0, ChildPaths(s, |At(n, s).children|), d);
    if ValidPath(n, d) {
      PendingChildren(n, s, d);
      if IsPrefix(s, d) && |s| < |d| {
        BelowTopOnlyOnTop(n, spec, r, s0, s, d);
        EffOfBlanket(n, spec, r, s, d);
        PrefixTrans(r, s, d);
      }
    }
  }

  lemma AnyAfterBlanket(n: Node, spec: Spec, r: seq<nat>, s0: seq<seq<nat>>, s: seq<nat>)
    requires StackOk(n, spec, r, s0 + [s])
    requires ValidPath(n, s) && Blanket(spec, At(n, s).item.entry)
    ensures AnyHit(n, spec, r, s0) == AnyHit(n, spec, r, s0 + ChildPaths(s, |At(n, s).children|))
  {
    var st' := s0 + ChildPaths(s, |At(n, s).children|);
    HitAfterBlanket(n, spec, r, s0, s, s);
    HitAfterPush(n, spec, r, s0, s, s);
    assert (s0 + [s])[|s0|] == s;
    TopSubtreePending(s0 + [s], s, s);
    if AnyHit(n, spec, r, s0) {
      var d :| Hit(n, spec, r, s0, d);
      HitAfterBlanket(n, spec, r, s0, s, d);
    }
    if AnyHit(n, spec, r, st') {
      var d :| Hit(n, spec, r, st', d);
      HitAfterBlanket(n, spec, r, s0, s, d);
    }
  }

  lemma BelowAfterBlanket(n: Node, spec: Spec, r: seq<nat>, s0: seq<seq<nat>>, s: seq<nat>, q: seq<nat>)
    requires StackOk(n, spec, r, s0 + [s])
    requires ValidPath(n, s) && Blanket(spec, At(n, s).item.entry)
    requires !(IsPrefix(s, q) && |s| < |q|)
    ensures HitBelow(n, spec, r, s0, q) == HitBelow(n, spec, r, s0 + ChildPaths(s, |At(n, s).children|), q)
  {
    var st' := s0 + ChildPaths(s, |At(n, s).children|);
    HitAfterPush(n, spec, r, s0, s, s);
    TopSubtreePending(s0 + [s], s, s);
    if HitBelow(n, spec, r, s0, q) {
      var d :| Hit(n, spec, r, s0, d) && IsPrefix(q, d);
      HitAfterBlanket(n, spec, r, s0, s, d);
      if IsPrefix(s, d) && |s| < |d| {
        PrefixComparable(q, s, d);
        assert IsPrefix(q, s);
      }
    }
    if HitBelow(n, spec, r, st', q) {
      var d :| Hit(n, spec, r, st', d) && IsPrefix(q, d);
      HitAfterBlanket(n, spec, r, s0, s, d);
    }
  }

  /** Strictly below a blanket file, after its subtree is done, an item is
      hidden exactly when the file did not match. */
  lemma BelowBlanket(n: Node, spec: Spec, r: seq<nat>, s0: seq<seq<nat>>, s: seq<nat>, q: seq<nat>)
    requires StackOk(n, spec, r, s0 + [s]) && ValidPath(n, q)
    requires ValidPath(n, s) && Blanket(spec, At(n, s).item.entry)
    requires IsPrefix(s, q) && |s| < |q|
    ensures Cur(n, spec, r, s0, q) == !Judge(spec, At(n, s).item.entry).show
  {
    var m := Judge(spec, At(n, s).item.entry).show;
    assert (s0 + [s])[|s0|] == s;
    BelowTopOnlyOnTop(n, spec, r, s0, s, q);
    PrefixTrans(r, s, q);
    assert !Pending(s0, q) && IsPrefix(r, q) && |r| < |q|;
    assert Cur(n, spec, r, s0, q) == !HitBelow(n, spec, r, s0, q);
    if m {
      HitAfterBlanket(n, spec, r, s0, s, q);
      assert IsPrefix(q, q);
      assert Hit(n, spec, r, s0, q);
    } else {
      forall d | IsPrefix(q, d)
        ensures !Hit(n, spec, r, s0, d)
      {
        NotHitBelowBlanket(n, spec, r, s0, s, q, d);
      }
    }
  }

  lemma NotHitBelowBlanket(n: Node, spec: Spec, r: seq<nat>, s0: seq<seq<nat>>, s: seq<nat>, q: seq<nat>, d: seq<nat>)
    requires StackOk(n, spec, r, s0 + [s])
    requires ValidPath(n, s) && Blanket(spec, At(n, s).item.entry)
    requires IsPrefix(s, q) && |s| < |q| && IsPrefix(q, d)
    requires !Judge(spec, At(n, s).item.entry).show
    ensures !Hit(n, spec, r, s0, d)
  {
    PrefixTrans(s, q, d);
    HitAfterBlanket(n, spec, r, s0, s, d);
    if ValidPath(n, d) {
      PendingChildren(n, s, d);
    }
    PendingOfConcat(s0, ChildPaths(s, |At(n, s).children|), d);
  }

  /** Visiting a blanket file s and then its whole subtree: the items strictly
      below s get the file's verdict; every other item has the flag it had
      right after s itself was visited. */
  lemma {:induction false} CurAfterBlanket(n: Node, spec: Spec, r: seq<nat>, s0: seq<seq<nat>>, s: seq<nat>, q: seq<nat>)
    requires StackOk(n, spec, r, s0 + [s]) && ValidPath(n, q)
    requires ValidPath(n, s) && Blanket(spec, At(n, s).item.entry)
    ensures StackOk(n, spec, r, s0)
    ensures Cur(n, spec, r, s0, q) ==
      if IsPrefix(s, q) && |s| < |q| then !Judge(spec, At(n, s).item.entry).show
      else Cur(n, spec, r, s0 + ChildPaths(s, |At(n, s).children|), q)
  {
    StackAfterPop(n, spec, r, s0, s);
    if IsPrefix(s, q) && |s| < |q| {
      BelowBlanket(n, spec, r, s0, s, q);
    } else {
      PendingOfConcat(s0, ChildPaths(s, |At(n, s).children|), q);
      PendingChildren(n, s, q);
      AnyAfterBlanket(n, spec, r, s0, s);
      BelowAfterBlanket(n, spec, r, s0, s, q);
    }
  }
}
