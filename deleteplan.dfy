/** The confirmation protocol of onFileDelete: which selected items are
    asked about, which are deleted, and where NoToAll stops the loop. */
module DeletePlan {

  /** The buttons of the confirmation box. */
  datatype Answer = Yes | No | YesToAll | NoToAll

  /** The answer given to the k-th question; once the given answers run out
      the box is left with its default button, No. */
  function AnswerAt(answers: seq<Answer>, k: nat): Answer
  {
    if k < |answers| then answers[k] else No
  }

  /** What the loop does with one item: whether it asked, whether it
      deleted, and msg_res afterwards. */
  datatype Step = Step(asked: bool, delete: bool, answer: Answer)

  /** The steps of onFileDelete's loop over items of which `files` says
      which are FILE items, when `asked` questions have been answered so
      far and msg_res is res.  A NoToAll answer ends the loop: the result is
      then shorter than `files`. */
  function Plan(files: seq<bool>, answers: seq<Answer>, asked: nat, res: Answer): (r: seq<Step>)
    ensures |r| <= |files|
    decreases |files|
  {
    if files == [] then []
    else if !files[0] then [Step(false, false, res)] + Plan(files[1..], answers, asked, res)
    else
      var ask := res == No || res == Yes;
      var res' := if ask then AnswerAt(answers, asked) else res;
      if res' == NoToAll then []
      else [Step(ask, res' != No, res')] + Plan(files[1..], answers, if ask then asked + 1 else asked, res')
  }

  /** The number of questions asked in the steps. */
  function Prompts(r: seq<Step>): nat
  {
    if r == [] then 0 else Prompts(r[..|r| - 1]) + (if r[|r| - 1].asked then 1 else 0)
  }

  /** onFileDelete starts with msg_res = No and no question asked. */
  function Decisions(files: seq<bool>, answers: seq<Answer>): seq<Step>
  {
    Plan(files, answers, 0, No)
  }

  /** Items that are not files are skipped without a question; a question
      is answered by deleting exactly on Yes and YesToAll; msg_res is never
      NoToAll inside the loop. */
  lemma {:induction false} StepsOfPlan(files: seq<bool>, answers: seq<Answer>, asked: nat, res: Answer)
    requires res != NoToAll
    ensures var r := Plan(files, answers, asked, res);
      forall i :: 0 <= i < |r| ==>
        r[i].answer != NoToAll &&
        (!files[i] ==> !r[i].asked && !r[i].delete) &&
        (files[i] ==> (r[i].delete <==> r[i].answer == Yes || r[i].answer == YesToAll))
    decreases |files|
  {
    if files != [] {
      var ask := res == No || res == Yes;
      var res' := if !files[0] then res else if ask then AnswerAt(answers, asked) else res;
      if files[0] && res' == NoToAll {
      } else {
        var asked' := if files[0] && ask then asked + 1 else asked;
        StepsOfPlan(files[1..], answers, asked', res');
        var r := Plan(files, answers, asked, res);
        var r' := Plan(files[1..], answers, asked', res');
        assert r == [r[0]] + r';
        forall i | 1 <= i < |r| ensures r[i] == r'[i - 1] && files[i] == files[1..][i - 1] {
        }
      }
    }
  }

  /** After YesToAll no question is asked again: every remaining FILE item
      is deleted and the loop runs to the end. */
  lemma {:induction false} AfterYesToAll(files: seq<bool>, answers: seq<Answer>, asked: nat)
    ensures var r := Plan(files, answers, asked, YesToAll);
      |r| == |files| && forall i :: 0 <= i < |r| ==> r[i] == Step(false, files[i], YesToAll)
    decreases |files|
  {
    if files != [] {
      AfterYesToAll(files[1..], answers, asked);
      var r := Plan(files, answers, asked, YesToAll);
      assert r == [r[0]] + Plan(files[1..], answers, asked, YesToAll);
    }
  }

  /** msg_res when the loop reaches item i of the plan r started with res. */
  function ResAt(res: Answer, r: seq<Step>, i: nat): Answer
    requires i <= |r|
  {
    if i == 0 then res else r[i - 1].answer
  }

  /** One step of the loop over a non-empty list of items. */
  lemma PlanUnfold(files: seq<bool>, answers: seq<Answer>, asked: nat, res: Answer)
    requires files != [] && res != NoToAll
    ensures var ask := files[0] && (res == No || res == Yes);
      var res' := if ask then AnswerAt(answers, asked) else res;
      Plan(files, answers, asked, res)
      == if res' == NoToAll then []
         else [Step(ask, files[0] && res' != No, res')] + Plan(files[1..], answers, if ask then asked + 1 else asked, res')
  {
  }

  /** The steps a plan takes once its first i steps are done: the plan
      started at item i with the questions so far answered and msg_res as
      step i - 1 left it. */
  lemma {:induction false} PlanPrefix(files: seq<bool>, answers: seq<Answer>, asked: nat, res: Answer, i: nat)
    requires res != NoToAll && i <= |Plan(files, answers, asked, res)|
    ensures i <= |files|
    ensures Plan(files, answers, asked, res)
         == Plan(files, answers, asked, res)[..i]
            + Plan(files[i..], answers, asked + Prompts(Plan(files, answers, asked, res)[..i]),
                   ResAt(res, Plan(files, answers, asked, res), i))
    decreases i
  {
    if i == 0 {
      var r := Plan(files, answers, asked, res);
      assert r[..0] == [] && files[0..] == files;
    } else {
      PlanPrefix(files, answers, asked, res, i - 1);
      PrefixStep(files, answers, asked, res, i);
    }
  }

  /** The inductive step of PlanPrefix: from the split after i - 1 steps to
      the split after i steps. */
  lemma PrefixStep(files: seq<bool>, answers: seq<Answer>, asked: nat, res: Answer, i: nat)
    requires res != NoToAll && 0 < i <= |Plan(files, answers, asked, res)| && i - 1 <= |files|
    requires Plan(files, answers, asked, res)
         == Plan(files, answers, asked, res)[..i - 1]
            + Plan(files[i - 1..], answers, asked + Prompts(Plan(files, answers, asked, res)[..i - 1]),
                   ResAt(res, Plan(files, answers, asked, res), i - 1))
    ensures i <= |files|
    ensures Plan(files, answers, asked, res)
         == Plan(files, answers, asked, res)[..i]
            + Plan(files[i..], answers, asked + Prompts(Plan(files, answers, asked, res)[..i]),
                   ResAt(res, Plan(files, answers, asked, res), i))
  {
    var r := Plan(files, answers, asked, res);
    var a := asked + Prompts(r[..i - 1]);
    var s := ResAt(res, r, i - 1);
    var tail := Plan(files[i - 1..], answers, a, s);
    assert r == r[..i - 1] + tail;
    var rest := Plan(files[i..], answers, if r[i - 1].asked then a + 1 else a, r[i - 1].answer);
    assert tail == [r[i - 1]] + rest by {
      assert s != NoToAll by {
        StepsOfPlan(files, answers, asked, res);
      }
      PlanUnfold(files[i - 1..], answers, a, s);
      assert files[i - 1..][1..] == files[i..];
      assert tail[0] == r[i - 1];
    }
    assert Prompts(r[..i]) == Prompts(r[..i - 1]) + (if r[i - 1].asked then 1 else 0) by {
      assert r[..i][..i - 1] == r[..i - 1];
    }
    assert asked + Prompts(r[..i]) == (if r[i - 1].asked then a + 1 else a);
    assert ResAt(res, r, i) == r[i - 1].answer;
    RegroupLast(r, i, tail, rest);
  }

  /** Moving one step from the tail of a split of r onto its prefix. */
  lemma RegroupLast(r: seq<Step>, i: nat, tail: seq<Step>, rest: seq<Step>)
    requires 0 < i <= |r|
    requires r == r[..i - 1] + tail && tail == [r[i - 1]] + rest
    ensures r == r[..i] + rest
  {
    assert r[..i] == r[..i - 1] + [r[i - 1]];
  }

  /** Step i of the plan r, started with `asked` questions answered and
      msg_res = res: a FILE item is asked about exactly when msg_res is No
      or Yes, the k-th question gets the k-th answer, and an item that is
      not asked about keeps msg_res. */
  predicate QuestionAt(files: seq<bool>, answers: seq<Answer>, asked: nat, res: Answer, r: seq<Step>, i: nat)
  {
    i < |r| && i < |files|
    && (r[i].asked <==> files[i] && (ResAt(res, r, i) == No || ResAt(res, r, i) == Yes))
    && (r[i].asked ==> r[i].answer == AnswerAt(answers, asked + Prompts(r[..i])))
    && (!r[i].asked ==> r[i].answer == ResAt(res, r, i))
  }

  /** Every step of the loop asks and answers as QuestionAt says. */
  lemma PlanQuestions(files: seq<bool>, answers: seq<Answer>, asked: nat, res: Answer)
    requires res != NoToAll
    ensures forall i :: 0 <= i < |Plan(files, answers, asked, res)| ==>
      QuestionAt(files, answers, asked, res, Plan(files, answers, asked, res), i)
  {
    var r := Plan(files, answers, asked, res);
    forall i | 0 <= i < |r| ensures QuestionAt(files, answers, asked, res, r, i) {
      QuestionOf(files, answers, asked, res, i);
    }
  }

  lemma QuestionOf(files: seq<bool>, answers: seq<Answer>, asked: nat, res: Answer, i: nat)
    requires res != NoToAll && i < |Plan(files, answers, asked, res)|
    ensures QuestionAt(files, answers, asked, res, Plan(files, answers, asked, res), i)
  {
    var r := Plan(files, answers, asked, res);
    PlanPrefix(files, answers, asked, res, i);
    var s := ResAt(res, r, i);
    assert s != NoToAll by {
      StepsOfPlan(files, answers, asked, res);
    }
    var tail := Plan(files[i..], answers, asked + Prompts(r[..i]), s);
    assert r[i] == tail[0];
    PlanUnfold(files[i..], answers, asked + Prompts(r[..i]), s);
  }

  /** The loop ends before the last item only at a FILE item asked about
      (msg_res No or Yes) whose answer is NoToAll. */
  lemma PlanStops(files: seq<bool>, answers: seq<Answer>, asked: nat, res: Answer)
    requires res != NoToAll
    ensures var r := Plan(files, answers, asked, res);
      |r| < |files| ==>
        files[|r|] && (ResAt(res, r, |r|) == No || ResAt(res, r, |r|) == Yes)
        && AnswerAt(answers, asked + Prompts(r)) == NoToAll
  {
    var r := Plan(files, answers, asked, res);
    PlanPrefix(files, answers, asked, res, |r|);
    assert r[..|r|] == r;
    var s := ResAt(res, r, |r|);
    assert s != NoToAll by {
      StepsOfPlan(files, answers, asked, res);
    }
    if |r| < |files| {
      PlanUnfold(files[|r|..], answers, asked + Prompts(r), s);
    }
  }

  /** Once a question is answered YesToAll, the loop asks nothing more,
      deletes every later FILE item and runs to the last item. */
  lemma YesToAllToTheEnd(files: seq<bool>, answers: seq<Answer>, k: nat)
    requires k < |Decisions(files, answers)| && Decisions(files, answers)[k].answer == YesToAll
    ensures |Decisions(files, answers)| == |files|
    ensures forall j :: k < j < |files| ==> Decisions(files, answers)[j] == Step(false, files[j], YesToAll)
  {
    var r := Decisions(files, answers);
    PlanPrefix(files, answers, 0, No, k + 1);
    var rest := Plan(files[k + 1..], answers, Prompts(r[..k + 1]), YesToAll);
    AfterYesToAll(files[k + 1..], answers, Prompts(r[..k + 1]));
    forall j | k < j < |files| ensures r[j] == Step(false, files[j], YesToAll) {
      assert r[j] == rest[j - k - 1];
      assert files[j] == files[k + 1..][j - k - 1];
    }
  }

  /** The loop has reached item i with the steps done so far, `asked`
      questions answered and msg_res = res, and the rest of its steps are
      the plan for the remaining items. */
  predicate OnTrack(all: seq<Step>, done: seq<Step>, files: seq<bool>, answers: seq<Answer>, i: nat,
                    asked: nat, res: Answer)
  {
    i <= |files| && all == done + Plan(files[i..], answers, asked, res)
  }

  /** The loop starts at the first item with nothing done. */
  lemma Start(files: seq<bool>, answers: seq<Answer>)
    ensures OnTrack(Decisions(files, answers), [], files, answers, 0, 0, No)
  {
    assert files[0..] == files;
  }

  /** One more turn of the loop: the item at i adds one step to the steps
      done and leaves the plan for the items after it. */
  lemma Advance(all: seq<Step>, done: seq<Step>, files: seq<bool>, answers: seq<Answer>, i: nat,
                asked: nat, res: Answer, step: Step, asked': nat, res': Answer)
    requires i < |files| && OnTrack(all, done, files, answers, i, asked, res)
    requires !files[i] ==> step == Step(false, false, res) && asked' == asked && res' == res
    requires files[i] ==>
      var ask := res == No || res == Yes;
      res' == (if ask then AnswerAt(answers, asked) else res) && res' != NoToAll
      && asked' == (if ask then asked + 1 else asked) && step == Step(ask, res' != No, res')
    ensures OnTrack(all, done + [step], files, answers, i + 1, asked', res')
  {
    var rest := Plan(files[i + 1..], answers, asked', res');
    assert files[i..][0] == files[i] && files[i..][1..] == files[i + 1..];
    assert Plan(files[i..], answers, asked, res) == [step] + rest;
    assert done + ([step] + rest) == (done + [step]) + rest;
  }

  /** NoToAll on the item at i ends the loop: the steps done are all. */
  lemma Stop(all: seq<Step>, done: seq<Step>, files: seq<bool>, answers: seq<Answer>, i: nat,
             asked: nat, res: Answer)
    requires i < |files| && files[i] && OnTrack(all, done, files, answers, i, asked, res)
    requires (res == No || res == Yes) && AnswerAt(answers, asked) == NoToAll
    ensures all == done
  {
    assert files[i..][0] == files[i];
  }

  /** The loop ran past the last item. */
  lemma Finish(all: seq<Step>, done: seq<Step>, files: seq<bool>, answers: seq<Answer>,
               asked: nat, res: Answer)
    requires OnTrack(all, done, files, answers, |files|, asked, res)
    ensures all == done
  {
    assert files[|files|..] == [];
  }
}
