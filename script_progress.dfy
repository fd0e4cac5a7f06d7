/** A party's progress through one script and the read-only questions asked
    of it: which step comes next, first or last, and whether to retry,
    proceed, give up or keep retrying at a given moment. The clock reading is
    the parameter `now`; times are whole seconds. */
module ScriptProgress {
  import opened Wrappers
  import opened ScriptDefinition

  /** The two declared status values, stored as 'C' and 'P'. */
  datatype Status = Complete | InProgress

  function StatusCode(s: Status): char
  {
    match s
    case Complete => 'C'
    case InProgress => 'P'
  }

  /** The status a stored code names; only the two declared choices name one. */
  function StatusOfCode(c: char): (r: Option<Status>)
    ensures r.Some? <==> c == 'C' || c == 'P'
    ensures r.Some? ==> StatusCode(r.value) == c
  {
    if c == 'C' then Some(Complete) else if c == 'P' then Some(InProgress) else None
  }

  /** One progress record: the script, the current step (None before the
      first step), the status, the time of the last save and the attempt count. */
  datatype Progress = Progress(
    script: Script,
    step: Option<Step>,
    status: Status,
    time: int,
    numTries: Option<int>)

  /** Python truthiness of a nullable integer column: None and 0 are false. */
  predicate Truthy(o: Option<int>)
  {
    o.Some? && o.value != 0
  }

  /** The timing test the code performs: with no (or a zero) offset it holds,
      otherwise it holds while `time + offset` is not earlier than `now`. */
  predicate NotYetPast(time: int, offset: Option<int>, now: int)
  {
    !Truthy(offset) || time + offset.value >= now
  }

  /** No step of `steps` has an order above `c`. */
  predicate IsLastOrder(steps: seq<Step>, c: int)
  {
    forall t :: t in steps ==> t.order <= c
  }

  /** `s` is a step of `steps` with the least order above `c`. */
  predicate IsSuccessor(steps: seq<Step>, c: int, s: Step)
  {
    && s in steps
    && c < s.order
    && forall t :: t in steps ==> !(c < t.order < s.order)
  }

  /** `get_next_step`: the step after the current one in the ascending list of
      orders, None when the record is complete or the current order is the
      last one, and the error Python raises otherwise. */
  function NextStep(p: Progress): (r: Result<Option<Step>, Fault>)
    ensures p.status == Complete ==> r == Ok(None)
    ensures p.status == InProgress && p.step.None? ==> r == Err(NoCurrentStep)
    ensures p.status == InProgress && p.step.Some? && !HasOrder(p.script.steps, p.step.value.order) ==>
              r == Err(OrderNotInScript)
    ensures p.status == InProgress && r == Ok(None) ==>
              p.step.Some? && IsLastOrder(p.script.steps, p.step.value.order)
    ensures r.Ok? && r.value.Some? ==>
              p.step.Some? && IsSuccessor(p.script.steps, p.step.value.order, r.value.value)
  {
    if p.status == Complete then
      Ok(None)
    else
      match p.step
      case None => Err(NoCurrentStep)
      case Some(cur) =>
        var orders := OrderList(p.script.steps);
        match FirstIndex(orders, cur.order)
        case None => Err(OrderNotInScript)
        case Some(i) =>
          if i + 1 == |orders| then
            OrderListLast(p.script.steps, cur.order, i);
            Ok(None)
          else
            match StepWithOrder(p.script.steps, orders[i + 1])
            case Err(e) => Err(e)
            case Ok(s) =>
              OrderListSuccessor(p.script.steps, cur.order, i);
              Ok(Some(s))
  }

  /** When the first occurrence of `c` is the last entry of the ascending list
      of orders, no step has an order above `c`. */
  lemma OrderListLast(steps: seq<Step>, c: int, i: nat)
    requires FirstIndex(OrderList(steps), c) == Some(i)
    requires i + 1 == |OrderList(steps)|
    ensures IsLastOrder(steps, c)
  {
    var orders := OrderList(steps);
    forall t | t in steps ensures t.order <= c {
      assert HasOrder(steps, t.order);
      var k :| 0 <= k < |orders| && orders[k] == t.order;
      assert k <= i;
    }
  }

  /** In the ascending list of orders, the entry after the first occurrence of
      `c`, when that next entry is carried by one step only, is the least order
      above `c`. */
  lemma OrderListSuccessor(steps: seq<Step>, c: int, i: nat)
    requires FirstIndex(OrderList(steps), c) == Some(i)
    requires i + 1 < |OrderList(steps)| && !Repeated(steps, OrderList(steps)[i + 1])
    ensures c < OrderList(steps)[i + 1]
    ensures forall t :: t in steps ==> !(c < t.order < OrderList(steps)[i + 1])
  {
    var orders := OrderList(steps);
    OrderListRepeated(steps, orders[i + 1]);
    assert orders[i] != orders[i + 1];
    forall t | t in steps ensures !(c < t.order < orders[i + 1]) {
      assert HasOrder(steps, t.order);
      var k :| 0 <= k < |orders| && orders[k] == t.order;
    }
  }

  /** For an in-progress record whose current order belongs to a script with
      distinct orders, `get_next_step` raises nothing, returns None exactly
      when the current order is the greatest, and otherwise returns exactly
      the step with the least greater order (gaps in `order` are allowed). */
  lemma {:induction false} NextStepIsSuccessor(p: Progress)
    requires p.status == InProgress && p.step.Some?
    requires HasOrder(p.script.steps, p.step.value.order)
    requires DistinctOrders(p.script.steps)
    ensures NextStep(p).Ok?
    ensures NextStep(p) == Ok(None) <==> IsLastOrder(p.script.steps, p.step.value.order)
    ensures forall s :: NextStep(p) == Ok(Some(s)) <==> IsSuccessor(p.script.steps, p.step.value.order, s)
  {
    var steps, c := p.script.steps, p.step.value.order;
    var orders := OrderList(steps);
    var i := FirstIndex(orders, c).value;
    if i + 1 == |orders| {
      forall t | t in steps ensures t.order <= c {
        assert HasOrder(steps, t.order);
        var k :| 0 <= k < |orders| && orders[k] == t.order;
        assert k <= i;
      }
      assert forall s :: !IsSuccessor(steps, c, s);
    } else {
      var nxt := orders[i + 1];
      assert HasOrder(steps, nxt) by {
        assert nxt in orders;
      }
      var s := StepWithOrder(steps, nxt).value;
      assert c < nxt;
      forall t | t in steps ensures !(c < t.order < nxt) {
        assert HasOrder(steps, t.order);
        var k :| 0 <= k < |orders| && orders[k] == t.order;
      }
      assert IsSuccessor(steps, c, s);
      assert !IsLastOrder(steps, c);
      forall s' | IsSuccessor(steps, c, s') ensures s' == s {
        assert s'.order == nxt;
        SameOrderSameStep(steps, s, s');
      }
    }
  }

  /** `get_initial_step`: a step of least order, None exactly when the script has no steps. */
  function InitialStep(p: Progress): (r: Option<Step>)
    ensures r.None? <==> |p.script.steps| == 0
    ensures r.Some? ==> r.value in p.script.steps && forall t :: t in p.script.steps ==> r.value.order <= t.order
  {
    var sorted := SortByOrder(p.script.steps);
    SortByOrderSorted(p.script.steps);
    if |sorted| == 0 then
      None
    else
      SortMembers(p.script.steps, sorted[0]);
      assert forall t :: t in p.script.steps ==> sorted[0].order <= t.order by {
        forall t | t in p.script.steps ensures sorted[0].order <= t.order {
          SortMembers(p.script.steps, t);
          var k :| 0 <= k < |sorted| && sorted[k] == t;
          assert k == 0 || sorted[0].order <= sorted[k].order;
        }
      }
      Some(sorted[0])
  }

  /** `get_last_step`: a step of greatest order, None exactly when the script has no steps. */
  function LastStep(p: Progress): (r: Option<Step>)
    ensures r.None? <==> |p.script.steps| == 0
    ensures r.Some? ==> r.value in p.script.steps && IsLastOrder(p.script.steps, r.value.order)
  {
    var sorted := SortByOrder(p.script.steps);
    SortByOrderSorted(p.script.steps);
    if |sorted| == 0 then
      None
    else
      var last := sorted[|sorted| - 1];
      SortMembers(p.script.steps, last);
      assert IsLastOrder(p.script.steps, last.order) by {
        forall t | t in p.script.steps ensures t.order <= last.order {
          SortMembers(p.script.steps, t);
          var k :| 0 <= k < |sorted| && sorted[k] == t;
          assert k == |sorted| - 1 || sorted[k].order <= last.order;
        }
      }
      Some(last)
  }

  /** `retry_now`: true when the current step has no (or a zero) retry
      offset, otherwise whether `time + retry_offset >= now`. */
  function RetryNow(p: Progress, now: int): (r: Result<bool, Fault>)
    ensures r.Err? <==> p.step.None?
    ensures r.Err? ==> r.error == NoCurrentStep
    ensures p.step.Some? && !Truthy(p.step.value.retryOffset) ==> r == Ok(true)
    ensures p.step.Some? && Truthy(p.step.value.retryOffset) ==>
              r == Ok(p.time + p.step.value.retryOffset.value >= now)
  {
    match p.step
    case None => Err(NoCurrentStep)
    case Some(cur) => Ok(NotYetPast(p.time, cur.retryOffset, now))
  }

  /** `retry_now` holds over an initial stretch of time: true at some moment, true at every earlier one. */
  lemma RetryNowAntitone(p: Progress, earlier: int, later: int)
    requires earlier <= later && RetryNow(p, later) == Ok(true)
    ensures RetryNow(p, earlier) == Ok(true)
  {
  }

  /** `proceed`: true when there is no next step or the next step has no (or
      a zero) start offset, otherwise whether `time + start_offset >= now`;
      the errors of `get_next_step` propagate. */
  function Proceed(p: Progress, now: int): (r: Result<bool, Fault>)
    ensures NextStep(p).Err? ==> r == Err(NextStep(p).error)
    ensures p.status == Complete ==> r == Ok(true)
    ensures NextStep(p) == Ok(None) ==> r == Ok(true)
    ensures NextStep(p).Ok? && NextStep(p).value.Some? ==>
              r == Ok(NotYetPast(p.time, NextStep(p).value.value.startOffset, now))
  {
    match NextStep(p)
    case Err(e) => Err(e)
    case Ok(None) => Ok(true)
    case Ok(Some(next)) => Ok(NotYetPast(p.time, next.startOffset, now))
  }

  /** For an in-progress record on a well-formed script: `proceed` raises
      nothing, is true at the last step, and otherwise is decided by the start
      offset of the step with the least greater order. */
  lemma {:induction false} ProceedBySuccessor(p: Progress, now: int)
    requires p.status == InProgress && p.step.Some?
    requires HasOrder(p.script.steps, p.step.value.order)
    requires DistinctOrders(p.script.steps)
    ensures Proceed(p, now).Ok?
    ensures IsLastOrder(p.script.steps, p.step.value.order) ==> Proceed(p, now) == Ok(true)
    ensures forall s :: IsSuccessor(p.script.steps, p.step.value.order, s) ==>
              Proceed(p, now) == Ok(!Truthy(s.startOffset) || p.time + s.startOffset.value >= now)
  {
    NextStepIsSuccessor(p);
  }

  /** `proceed` holds over an initial stretch of time: true at some moment, true at every earlier one. */
  lemma ProceedAntitone(p: Progress, earlier: int, later: int)
    requires earlier <= later && Proceed(p, later) == Ok(true)
    ensures Proceed(p, earlier) == Ok(true)
  {
  }

  /** `give_up_now`: true when the current step has no (or a zero) give-up
      offset, otherwise whether `time + giveup_offset >= now`. */
  function GiveUpNow(p: Progress, now: int): (r: Result<bool, Fault>)
    ensures r.Err? <==> p.step.None?
    ensures r.Err? ==> r.error == NoCurrentStep
    ensures p.step.Some? && !Truthy(p.step.value.giveupOffset) ==> r == Ok(true)
    ensures p.step.Some? && Truthy(p.step.value.giveupOffset) ==>
              r == Ok(p.time + p.step.value.giveupOffset.value >= now)
  {
    match p.step
    case None => Err(NoCurrentStep)
    case Some(cur) => Ok(NotYetPast(p.time, cur.giveupOffset, now))
  }

  /** `give_up_now` holds over an initial stretch of time. */
  lemma GiveUpNowAntitone(p: Progress, earlier: int, later: int)
    requires earlier <= later && GiveUpNow(p, later) == Ok(true)
    ensures GiveUpNow(p, earlier) == Ok(true)
  {
  }

  /** Python 2's `<` between a nullable integer and an integer: None is below every integer. */
  predicate Py2Less(a: Option<int>, b: int)
  {
    a.None? || a.value < b
  }

  /** `keep_retrying`: true iff the step's `num_tries` is set and nonzero and
      the record's attempt count is below it; the branch that evaluates
      `False` without returning it yields None, read here as false. */
  function KeepRetrying(p: Progress): (r: Result<bool, Fault>)
    ensures r.Err? <==> p.step.None?
    ensures r.Err? ==> r.error == NoCurrentStep
    ensures r == Ok(true) <==>
              p.step.Some? && Truthy(p.step.value.numTries)
              && (p.numTries.None? || p.numTries.value < p.step.value.numTries.value)
  {
    match p.step
    case None => Err(NoCurrentStep)
    case Some(cur) => Ok(Truthy(cur.numTries) && Py2Less(p.numTries, cur.numTries.value))
  }

  /** Fewer attempts never turn `keep_retrying` off: if it holds after `k` attempts it holds after any fewer. */
  lemma KeepRetryingAntitone(p: Progress, fewer: int)
    requires p.numTries.Some? && fewer <= p.numTries.value && KeepRetrying(p) == Ok(true)
    ensures KeepRetrying(p.(numTries := Some(fewer))) == Ok(true)
  {
  }

  /** The test inside `script_completion`: the current step's order equals
      the last step's order and the status is 'C'. Evaluating `.order` on a
      missing current or last step raises. */
  function Completion(p: Progress): (r: Result<bool, Fault>)
    ensures p.step.None? ==> r == Err(NoCurrentStep)
    ensures p.step.Some? && |p.script.steps| == 0 ==> r == Err(NoLastStep)
    ensures p.step.Some? && |p.script.steps| > 0 ==> r.Ok?
  {
    var last := LastStep(p);
    match p.step
    case None => Err(NoCurrentStep)
    case Some(cur) =>
      match last
      case None => Err(NoLastStep)
      case Some(l) => Ok(cur.order == l.order && p.status == Complete)
  }

  /** The completion test holds exactly for a complete record whose current
      order is the greatest order of the script. */
  lemma CompletionIff(p: Progress)
    ensures Completion(p) == Ok(true) <==>
              && p.step.Some?
              && p.status == Complete
              && HasOrder(p.script.steps, p.step.value.order)
              && IsLastOrder(p.script.steps, p.step.value.order)
  {
  }

  /** When two positions of the script carry the current order, `get_next_step`
      of an in-progress record finds that order again right after its first
      occurrence, and `steps.get` on it raises. */
  lemma {:induction false} NextStepDuplicateOrder(p: Progress)
    requires p.status == InProgress && p.step.Some?
    requires Repeated(p.script.steps, p.step.value.order)
    ensures NextStep(p) == Err(MultipleStepsWithOrder)
  {
    var steps, c := p.script.steps, p.step.value.order;
    var orders := OrderList(steps);
    assert HasOrder(steps, c) by {
      var a, b :| 0 <= a < b < |steps| && steps[a].order == c && steps[b].order == c;
      assert steps[a] in steps;
    }
    var i := FirstIndex(orders, c).value;
    OrderListRepeated(steps, c);
    var a, b :| 0 <= a < b < |orders| && orders[a] == c && orders[b] == c;
    assert forall k :: 0 <= k < i ==> orders[k] != c by {
      forall k | 0 <= k < i ensures orders[k] != c {
        assert orders[..i][k] == orders[k];
      }
    }
    assert i < b;
    assert orders[i + 1] == c;
  }

  /** Two steps sharing order 1: `get_next_step` from the first of them raises. */
  lemma NextStepDuplicateExample()
    ensures var a := Step(1, "a", Lenient, None, None, None, None);
            var b := Step(1, "b", Lenient, None, None, None, None);
            NextStep(Progress(Script("s", "s", [a, b]), Some(a), InProgress, 0, None))
              == Err(MultipleStepsWithOrder)
  {
    var a := Step(1, "a", Lenient, None, None, None, None);
    var b := Step(1, "b", Lenient, None, None, None, None);
    var steps := [a, b];
    assert steps[0].order == 1 && steps[1].order == 1;
    NextStepDuplicateOrder(Progress(Script("s", "s", steps), Some(a), InProgress, 0, None));
  }

  // The timing tests as evidently intended: an offset is a delay, so the
  // test should hold once `time + offset` has been reached.

  /** With no (or a zero) offset it holds, otherwise once `now` has reached `time + offset`. */
  predicate Reached(time: int, offset: Option<int>, now: int)
  {
    !Truthy(offset) || now >= time + offset.value
  }

  /** `retry_now` as intended: due once the retry offset has elapsed. */
  function RetryDue(p: Progress, now: int): (r: Result<bool, Fault>)
    ensures r.Err? <==> p.step.None?
    ensures r.Err? ==> r.error == NoCurrentStep
    ensures p.step.Some? && !Truthy(p.step.value.retryOffset) ==> r == Ok(true)
    ensures p.step.Some? && Truthy(p.step.value.retryOffset) ==>
              r == Ok(now >= p.time + p.step.value.retryOffset.value)
  {
    match p.step
    case None => Err(NoCurrentStep)
    case Some(cur) => Ok(Reached(p.time, cur.retryOffset, now))
  }

  /** Once a retry is due it stays due. */
  lemma RetryDueMonotone(p: Progress, earlier: int, later: int)
    requires earlier <= later && RetryDue(p, earlier) == Ok(true)
    ensures RetryDue(p, later) == Ok(true)
  {
  }

  /** A step waiting 60 seconds between resends: the code answers "retry now"
      at once and "not yet" two minutes later, the reverse of the intent. */
  lemma RetryNowInverted()
    ensures var st := Step(1, "q", ResendMoveOn, None, Some(60), None, Some(3));
            var p := Progress(Script("s", "s", [st]), Some(st), InProgress, 0, Some(0));
            && RetryNow(p, 0) == Ok(true) && RetryNow(p, 120) == Ok(false)
            && RetryDue(p, 0) == Ok(false) && RetryDue(p, 120) == Ok(true)
  {
  }

  /** `proceed` as intended: due at the last step, and otherwise once the next
      step's start offset has elapsed. */
  function ProceedDue(p: Progress, now: int): (r: Result<bool, Fault>)
    ensures NextStep(p).Err? ==> r == Err(NextStep(p).error)
    ensures NextStep(p) == Ok(None) ==> r == Ok(true)
    ensures NextStep(p).Ok? && NextStep(p).value.Some? ==>
              r == Ok(Reached(p.time, NextStep(p).value.value.startOffset, now))
  {
    match NextStep(p)
    case Err(e) => Err(e)
    case Ok(None) => Ok(true)
    case Ok(Some(next)) => Ok(Reached(p.time, next.startOffset, now))
  }

  /** Once proceeding is due it stays due. */
  lemma ProceedDueMonotone(p: Progress, earlier: int, later: int)
    requires earlier <= later && ProceedDue(p, earlier) == Ok(true)
    ensures ProceedDue(p, later) == Ok(true)
  {
  }

  /** A second step that starts 60 seconds after the first: the code answers
      "proceed" at once and "not yet" two minutes later. */
  lemma {:induction false} ProceedInverted()
    ensures var first := Step(1, "hello", WaitMoveOn, None, None, None, None);
            var second := Step(2, "q", Lenient, Some(60), None, None, None);
            var p := Progress(Script("s", "s", [first, second]), Some(first), InProgress, 0, None);
            && Proceed(p, 0) == Ok(true) && Proceed(p, 120) == Ok(false)
            && ProceedDue(p, 0) == Ok(false) && ProceedDue(p, 120) == Ok(true)
  {
    var first := Step(1, "hello", WaitMoveOn, None, None, None, None);
    var second := Step(2, "q", Lenient, Some(60), None, None, None);
    var p := Progress(Script("s", "s", [first, second]), Some(first), InProgress, 0, None);
    assert first in p.script.steps && second in p.script.steps;
    NextStepIsSuccessor(p);
    assert IsSuccessor(p.script.steps, 1, second);
    assert NextStep(p) == Ok(Some(second));
  }

  /** `give_up_now` as intended: due once the give-up offset has elapsed. */
  function GiveUpDue(p: Progress, now: int): (r: Result<bool, Fault>)
    ensures r.Err? <==> p.step.None?
    ensures r.Err? ==> r.error == NoCurrentStep
    ensures p.step.Some? && !Truthy(p.step.value.giveupOffset) ==> r == Ok(true)
    ensures p.step.Some? && Truthy(p.step.value.giveupOffset) ==>
              r == Ok(now >= p.time + p.step.value.giveupOffset.value)
  {
    match p.step
    case None => Err(NoCurrentStep)
    case Some(cur) => Ok(Reached(p.time, cur.giveupOffset, now))
  }

  /** Once giving up is due it stays due. */
  lemma GiveUpDueMonotone(p: Progress, earlier: int, later: int)
    requires earlier <= later && GiveUpDue(p, earlier) == Ok(true)
    ensures GiveUpDue(p, later) == Ok(true)
  {
  }

  /** A step that gives up after an hour: the code answers "give up" at once
      and "not yet" two hours later. */
  lemma GiveUpNowInverted()
    ensures var st := Step(1, "q", WaitGiveUp, None, None, Some(3600), None);
            var p := Progress(Script("s", "s", [st]), Some(st), InProgress, 0, None);
            && GiveUpNow(p, 0) == Ok(true) && GiveUpNow(p, 7200) == Ok(false)
            && GiveUpDue(p, 0) == Ok(false) && GiveUpDue(p, 7200) == Ok(true)
  {
  }
}
