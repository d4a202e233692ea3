/** The filter predicates of the outline and the visibility a filter pass
    over a subtree must produce. */
module Filter {
  import opened Index
  import opened Tree

  /** The six filter kinds offered in the tool bar. */
  datatype FilterType = Title | FileName | MTimeBe | MTimeLe | FileSizeBe | FileSizeLe

  /** A predicate handed to filterItemBy.  `Const` is the one
      setItemChildrenFilter passes: every node gets the same verdict. */
  datatype Spec =
    | ByTitle(text: string)
    | ByFileName(text: string)
    | MTimeAtLeast(mbound: int)
    | MTimeAtMost(mbound: int)
    | SizeAtLeast(sbound: nat)
    | SizeAtMost(sbound: nat)
    | Const(show: bool)

  /** What a predicate answers for one node: is it shown, and do the
      children of a file take the file's answer instead of being asked. */
  datatype Verdict = Verdict(show: bool, sameAsFile: bool)

  /** `sub` occurs in `s` starting at position i. */
  predicate OccursAt(s: string, sub: string, i: int)
  {
    0 <= i && i + |sub| <= |s| && s[i..i + |sub|] == sub
  }

  /** std::string::find(sub) != npos */
  function Contains(s: string, sub: string): (b: bool)
    ensures b <==> exists i :: OccursAt(s, sub, i)
  {
    if sub <= s then
      assert OccursAt(s, sub, 0);
      true
    else if s == [] then
      assert forall i :: !OccursAt(s, sub, i);
      false
    else
      var b := Contains(s[1..], sub);
      assert forall i :: OccursAt(s, sub, i) && i > 0 ==> OccursAt(s[1..], sub, i - 1);
      assert forall i :: OccursAt(s[1..], sub, i) ==> OccursAt(s, sub, i + 1);
      assert !OccursAt(s, sub, 0);
      b
  }

  /** The predicates onFilter builds, one per filter kind.  The time bound
      is compared with the stored modification time as it is given (the
      source passes a millisecond count); the size bound is the value after
      the cast to the size type. */
  function Judge(spec: Spec, e: Entry): Verdict
  {
    match spec
    case ByTitle(t) => Verdict(Contains(e.title, t), false)
    case ByFileName(t) => Verdict(e.kind == File && Contains(e.title, t), true)
    case MTimeAtLeast(b) => Verdict(e.kind == File && e.mtime >= b, true)
    case MTimeAtMost(b) => Verdict(e.kind == File && e.mtime <= b, true)
    case SizeAtLeast(b) => Verdict(e.kind == File && e.size >= b, true)
    case SizeAtMost(b) => Verdict(e.kind == File && e.size <= b, true)
    case Const(b) => Verdict(b, false)
  }

  /** Builds the predicate for a filter kind from its (already parsed) bounds. */
  function SpecFor(ft: FilterType, text: string, time: int, size: nat): (s: Spec)
    ensures !s.Const?
  {
    match ft
    case Title => ByTitle(text)
    case FileName => ByFileName(text)
    case MTimeBe => MTimeAtLeast(time)
    case MTimeLe => MTimeAtMost(time)
    case FileSizeBe => SizeAtLeast(size)
    case FileSizeLe => SizeAtMost(size)
  }

  /** A file whose children take its verdict instead of being asked. */
  predicate Blanket(spec: Spec, e: Entry)
  {
    e.kind == File && Judge(spec, e).sameAsFile
  }

  /** Every predicate of a file-oriented kind hides all but files, and a
      title filter never hands a file's verdict down. */
  lemma {:induction false} KindsOfPredicates(ft: FilterType, text: string, time: int, size: nat, e: Entry)
    ensures ft != Title && Judge(SpecFor(ft, text, time, size), e).show ==> e.kind == File
    ensures ft == Title <==> !Judge(SpecFor(ft, text, time, size), e).sameAsFile
  {
  }

  // ---------------------------------------------------------------------
  // The verdict that decides a node's visibility

  /** No node strictly between r and d hands its verdict down. */
  ghost predicate Free(n: Node, spec: Spec, r: seq<nat>, d: seq<nat>)
  {
    forall k :: |r| < k < |d| && ValidPath(n, d[..k]) ==> !Blanket(spec, At(n, d[..k]).item.entry)
  }

  /** Walking from depth k down to d, the verdict of the first node that
      hands its verdict down, or of d itself. */
  function EffFrom(n: Node, spec: Spec, d: seq<nat>, k: nat): bool
    requires ValidPath(n, d) && 0 < k <= |d|
    decreases |d| - k
  {
    PrefixValid(n, d, k);
    var a := At(n, d[..k]).item.entry;
    if k == |d| then Judge(spec, a).show
    else if Blanket(spec, a) then Judge(spec, a).show
    else EffFrom(n, spec, d, k + 1)
  }

  /** The verdict in force at d when a filter pass starts below r: d's own,
      or that of the first file above d (and below r) that hands it down. */
  function Eff(n: Node, spec: Spec, r: seq<nat>, d: seq<nat>): bool
    requires ValidPath(n, d) && IsPrefix(r, d) && |r| < |d|
  {
    EffFrom(n, spec, d, |r| + 1)
  }

  /** q is shown after a pass below r: some node at or below q has a verdict that shows it. */
  ghost predicate Reach(n: Node, spec: Spec, r: seq<nat>, q: seq<nat>)
  {
    exists d :: IsPrefix(r, d) && |r| < |d| && ValidPath(n, d) && IsPrefix(q, d) && Eff(n, spec, r, d)
  }

  /** Some node below r has a verdict that shows it. */
  ghost predicate AnyShown(n: Node, spec: Spec, r: seq<nat>)
  {
    exists d :: IsPrefix(r, d) && |r| < |d| && ValidPath(n, d) && Eff(n, spec, r, d)
  }

  lemma {:induction false} EffFromFree(n: Node, spec: Spec, r: seq<nat>, d: seq<nat>, k: nat)
    requires ValidPath(n, d) && |r| < k <= |d| && Free(n, spec, r, d)
    ensures EffFrom(n, spec, d, k) == Judge(spec, At(n, d).item.entry).show
    decreases |d| - k
  {
    PrefixValid(n, d, k);
    if k < |d| {
      EffFromFree(n, spec, r, d, k + 1);
    } else {
      assert d[..k] == d;
    }
  }

  /** A node no blanket file covers is judged by its own verdict. */
  lemma EffOfFree(n: Node, spec: Spec, r: seq<nat>, d: seq<nat>)
    requires ValidPath(n, d) && IsPrefix(r, d) && |r| < |d| && Free(n, spec, r, d)
    ensures Eff(n, spec, r, d) == Judge(spec, At(n, d).item.entry).show
  {
    EffFromFree(n, spec, r, d, |r| + 1);
  }

  lemma {:induction false} EffFromBlanket(n: Node, spec: Spec, r: seq<nat>, s: seq<nat>, d: seq<nat>, k: nat)
    requires ValidPath(n, d) && IsPrefix(s, d) && |r| < k <= |s| < |d|
    requires Free(n, spec, r, s) && ValidPath(n, s) && Blanket(spec, At(n, s).item.entry)
    ensures EffFrom(n, spec, d, k) == Judge(spec, At(n, s).item.entry).show
    decreases |s| - k
  {
    PrefixValid(n, d, k);
    assert d[..k] == s[..k];
    if k < |s| {
      EffFromBlanket(n, spec, r, s, d, k + 1);
    } else {
      assert s[..k] == s;
    }
  }

  /** Below a file that hands its verdict down (and that no other such file
      covers), every node has the file's verdict. */
  lemma EffOfBlanket(n: Node, spec: Spec, r: seq<nat>, s: seq<nat>, d: seq<nat>)
    requires ValidPath(n, d) && IsPrefix(r, s) && |r| < |s| && IsPrefix(s, d) && |s| < |d|
    requires Free(n, spec, r, s) && ValidPath(n, s) && Blanket(spec, At(n, s).item.entry)
    ensures Eff(n, spec, r, d) == Judge(spec, At(n, s).item.entry).show
  {
    EffFromBlanket(n, spec, r, s, d, |r| + 1);
  }

  /** The children of a node that does not hand its verdict down are free when it is. */
  lemma FreeChild(n: Node, spec: Spec, r: seq<nat>, s: seq<nat>, i: nat)
    requires ValidPath(n, s) && |r| <= |s| && Free(n, spec, r, s)
    requires |r| < |s| ==> !Blanket(spec, At(n, s).item.entry)
    ensures Free(n, spec, r, s + [i])
  {
    forall k | |r| < k < |s + [i]| && ValidPath(n, (s + [i])[..k])
      ensures !Blanket(spec, At(n, (s + [i])[..k]).item.entry)
    {
      if k < |s| {
        assert (s + [i])[..k] == s[..k];
      } else {
        assert (s + [i])[..k] == s;
      }
    }
  }

  // ---------------------------------------------------------------------
  // What the visibility rules promise

  /** A node the pass asks and that matches is shown, and so is every node
      on its way up to the start of the pass. */
  lemma MatchShowsAncestors(n: Node, spec: Spec, r: seq<nat>, d: seq<nat>, q: seq<nat>)
    requires ValidPath(n, d) && IsPrefix(r, d) && |r| < |d| && Free(n, spec, r, d)
    requires Judge(spec, At(n, d).item.entry).show
    requires IsPrefix(q, d)
    ensures Reach(n, spec, r, q)
  {
    EffOfFree(n, spec, r, d);
  }

  /** A node stays hidden exactly when neither its own verdict nor that of
      any node below it shows it. */
  lemma {:induction false} HiddenOnlyWithoutMatch(n: Node, spec: Spec, r: seq<nat>, q: seq<nat>)
    requires ValidPath(n, q) && IsPrefix(r, q) && |r| < |q|
    ensures !Reach(n, spec, r, q) <==>
      !Eff(n, spec, r, q) && forall d :: IsPrefix(q, d) && |q| < |d| && ValidPath(n, d) ==> !Eff(n, spec, r, d)
  {
    if Eff(n, spec, r, q) {
      assert IsPrefix(q, q);
    }
    forall d | IsPrefix(q, d) && |d| == |q|
      ensures d == q
    {
      assert d == d[..|q|];
    }
    forall d | IsPrefix(q, d) && |q| < |d| && ValidPath(n, d) && Eff(n, spec, r, d)
      ensures Reach(n, spec, r, q)
    {
      assert IsPrefix(r, d) by { assert d[..|r|] == q[..|r|]; }
    }
  }

  /** Below a file that hands its verdict down, every node is shown exactly
      when the file is matched. */
  lemma BlanketChildrenFollowFile(n: Node, spec: Spec, r: seq<nat>, s: seq<nat>, q: seq<nat>)
    requires ValidPath(n, q) && IsPrefix(r, s) && |r| < |s| && IsPrefix(s, q) && |s| < |q|
    requires Free(n, spec, r, s) && ValidPath(n, s) && Blanket(spec, At(n, s).item.entry)
    ensures Reach(n, spec, r, q) == Judge(spec, At(n, s).item.entry).show
  {
    assert IsPrefix(r, q) by { assert q[..|r|] == s[..|r|]; }
    EffOfBlanket(n, spec, r, s, q);
    assert IsPrefix(q, q);
    forall d | IsPrefix(r, d) && |r| < |d| && ValidPath(n, d) && IsPrefix(q, d)
      ensures Eff(n, spec, r, d) == Judge(spec, At(n, s).item.entry).show
    {
      assert IsPrefix(s, d) by { assert d[..|s|] == q[..|s|]; }
      EffOfBlanket(n, spec, r, s, d);
    }
  }

  /** Under a constant predicate every node below r gets the constant. */
  lemma ConstReach(n: Node, b: bool, r: seq<nat>, q: seq<nat>)
    requires ValidPath(n, q) && IsPrefix(r, q) && |r| < |q|
    ensures Reach(n, Const(b), r, q) == b
  {
    if b {
      ConstEff(n, b, r, q);
      assert IsPrefix(q, q);
    } else {
      forall d | IsPrefix(r, d) && |r| < |d| && ValidPath(n, d) && IsPrefix(q, d)
        ensures !Eff(n, Const(b), r, d)
      {
        ConstEff(n, b, r, d);
      }
    }
  }

  /** Under a constant predicate every node below r has the constant as its verdict. */
  lemma ConstEff(n: Node, b: bool, r: seq<nat>, d: seq<nat>)
    requires ValidPath(n, d) && IsPrefix(r, d) && |r| < |d|
    ensures Eff(n, Const(b), r, d) == b
  {
    assert Free(n, Const(b), r, d);
    EffOfFree(n, Const(b), r, d);
  }
}
