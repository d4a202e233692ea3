/** Where the scroll commands move the selection. */
module Navigation {
  import opened Index
  import opened Tree

  function Min(a: int, b: int): int { if a <= b then a else b }
  function Max(a: int, b: int): int { if a >= b then a else b }

  /** The last child position of a path. */
  function Last(p: seq<nat>): nat
    requires p != []
  {
    p[|p| - 1]
  }

  /** A sibling at or before the last position of a valid path exists. */
  lemma SiblingValid(T: Node, p: seq<nat>, k: nat)
    requires ValidPath(T, p) && p != []
    ensures ValidPath(T, Parent(p)) && Last(p) < |At(T, Parent(p)).children|
    ensures k < |At(T, Parent(p)).children| ==> ValidPath(T, Parent(p) + [k])
  {
    assert p == Parent(p) + [Last(p)];
    PrefixValid(T, p, |p| - 1);
    ChildPath(T, Parent(p), Last(p));
    ChildPath(T, Parent(p), k);
  }

  /** scrollUp: the sibling `times` places before p, or the first sibling.
      A negative count moves the other way, `-times` places after p. */
  function UpTarget(p: seq<nat>, times: int): (r: seq<nat>)
    requires p != []
    ensures |r| == |p| && Parent(r) == Parent(p)
    ensures times >= 0 ==> Last(r) <= Last(p) && Last(p) - Last(r) == Min(times, Last(p))
    ensures times < 0 ==> Last(r) > Last(p) && Last(r) - Last(p) == -times
  {
    Parent(p) + [if Last(p) > times then Last(p) - times else 0]
  }

  /** The sibling scrollUp picks exists: `parent->child` is not null.  Only
      a negative count can send it past the last sibling. */
  predicate UpInRange(T: Node, p: seq<nat>, times: int)
    requires ValidPath(T, p) && p != []
  {
    Last(p) == 0 || Last(UpTarget(p, times)) < SiblingCount(T, p)
  }

  /** scrollDown: the sibling `times` places after p, or the last sibling.
      A negative count moves the other way, `-times` places before p. */
  function DownTarget(p: seq<nat>, times: int, count: nat): (r: seq<nat>)
    requires p != [] && Last(p) < count && Last(p) + times >= 0
    ensures |r| == |p| && Parent(r) == Parent(p)
    ensures times >= 0 ==> Last(p) <= Last(r) < count && Last(r) == Min(Last(p) + times, count - 1)
    ensures times < 0 ==> Last(r) < Last(p) && Last(p) - Last(r) == -times
  {
    Parent(p) + [if Last(p) + times < count then Last(p) + times else count - 1]
  }

  /** The sibling scrollDown picks exists: only a negative count larger
      than p's position sends it before the first sibling. */
  predicate DownInRange(p: seq<nat>, times: int)
    requires p != []
  {
    Last(p) + times >= 0
  }

  /** The in-range conditions exclude only negative counts. */
  lemma NonNegativeInRange(T: Node, p: seq<nat>, times: int)
    requires ValidPath(T, p) && p != [] && times >= 0
    ensures UpInRange(T, p, times) && DownInRange(p, times)
  {
    SiblingValid(T, p, 0);
  }

  /** scrollLeft: the ancestor max(times, 1) levels up, but no higher than the top level. */
  function LeftTarget(p: seq<nat>, times: int): (r: seq<nat>)
    requires |p| > 1
    ensures r != [] && IsPrefix(r, p) && |r| < |p|
    ensures |r| == 1 || |p| - |r| == Max(times, 1)
  {
    p[..|p| - Min(Max(times, 1), |p| - 1)]
  }

  /** How many times one can step to the first child, starting from n. */
  function FirstChildDepth(n: Node): nat
  {
    if n.children == [] then 0 else 1 + FirstChildDepth(n.children[0])
  }

  /** k steps to the first child. */
  function Zeros(k: nat): (z: seq<nat>)
    ensures |z| == k && forall i :: 0 <= i < k ==> z[i] == 0
  {
    seq(k, i => 0)
  }

  /** scrollRight: max(times, 1) steps down through first children, stopping at a leaf. */
  function RightTarget(T: Node, p: seq<nat>, times: int): seq<nat>
    requires ValidPath(T, p)
  {
    p + Zeros(Min(Max(times, 1), FirstChildDepth(At(T, p))))
  }

  lemma {:induction false} FirstChildSteps(n: Node, k: nat)
    requires k <= FirstChildDepth(n)
    ensures ValidPath(n, Zeros(k))
    ensures FirstChildDepth(At(n, Zeros(k))) == FirstChildDepth(n) - k
    decreases k
  {
    if k > 0 {
      assert Zeros(k)[1..] == Zeros(k - 1);
      FirstChildSteps(n.children[0], k - 1);
    }
  }

  /** Going k first-child steps below p stays inside the tree. */
  lemma DescendFirst(T: Node, p: seq<nat>, k: nat)
    requires ValidPath(T, p) && k <= FirstChildDepth(At(T, p))
    ensures ValidPath(T, p + Zeros(k))
    ensures FirstChildDepth(At(T, p + Zeros(k))) == FirstChildDepth(At(T, p)) - k
  {
    FirstChildSteps(At(T, p), k);
    PathConcat(T, p, Zeros(k));
  }

  /** One more first-child step below p + Zeros(d). */
  lemma DescendOne(T: Node, p: seq<nat>, d: nat)
    requires ValidPath(T, p) && d < FirstChildDepth(At(T, p))
    ensures p + Zeros(d) + [0] == p + Zeros(d + 1)
    ensures ValidPath(T, p + Zeros(d + 1))
    ensures FirstChildDepth(At(T, p + Zeros(d + 1))) == FirstChildDepth(At(T, p)) - (d + 1)
  {
    assert Zeros(d) + [0] == Zeros(d + 1);
    DescendFirst(T, p, d + 1);
  }

  /** scrollRight's walk stops after d steps either because max(times, 1)
      steps were taken or because a leaf was reached: it is at the target. */
  lemma RightStop(T: Node, p: seq<nat>, d: nat, times: int)
    requires ValidPath(T, p) && 1 <= d <= FirstChildDepth(At(T, p)) && d <= Max(times, 1)
    requires times - d <= 0 || d == FirstChildDepth(At(T, p))
    ensures p + Zeros(d) == RightTarget(T, p, times)
  {
  }

  /** The number of children of p's parent. */
  function SiblingCount(T: Node, p: seq<nat>): nat
    requires ValidPath(T, p) && p != []
  {
    SiblingValid(T, p, 0);
    |At(T, Parent(p)).children|
  }

  /** The target of scrollRight exists, lies max(times, 1) first-child steps
      below p, or fewer when a leaf is reached first. */
  lemma {:induction false} RightTargetFacts(T: Node, p: seq<nat>, times: int)
    requires ValidPath(T, p) && At(T, p).children != []
    ensures ValidPath(T, RightTarget(T, p, times))
    ensures IsPrefix(p, RightTarget(T, p, times)) && |RightTarget(T, p, times)| > |p|
    ensures forall i :: |p| <= i < |RightTarget(T, p, times)| ==> RightTarget(T, p, times)[i] == 0
    ensures |RightTarget(T, p, times)| - |p| == Max(times, 1)
         || At(T, RightTarget(T, p, times)).children == []
  {
    var k := Min(Max(times, 1), FirstChildDepth(At(T, p)));
    DescendFirst(T, p, k);
    var r := p + Zeros(k);
    assert r[..|p|] == p;
    forall i | |p| <= i < |r| ensures r[i] == 0 {
      assert r[i] == Zeros(k)[i - |p|];
    }
  }
}
