/** The definition side of a script: its steps, their timing-rule codes, and
    the order-based lookups that the database performs for a progress record
    (`order_by('order')`, `values_list('order')`, `get(order=...)`), together
    with Python's `list.index`. */
module ScriptDefinition {
  import opened Wrappers

  /** The five timing rules a step may follow. */
  datatype Rule = Lenient | WaitMoveOn | WaitGiveUp | ResendMoveOn | ResendGiveUp

  /** The one-character code under which each rule is stored. */
  function RuleCode(r: Rule): char
  {
    match r
    case Lenient => 'l'
    case WaitMoveOn => 'w'
    case WaitGiveUp => 'g'
    case ResendMoveOn => 'R'
    case ResendGiveUp => 'r'
  }

  /** The rule a stored code stands for; only the five declared choices name one. */
  function RuleOfCode(c: char): (r: Option<Rule>)
    ensures r.Some? <==> c in {'l', 'w', 'g', 'R', 'r'}
    ensures r.Some? ==> RuleCode(r.value) == c
  {
    match c
    case 'l' => Some(Lenient)
    case 'w' => Some(WaitMoveOn)
    case 'g' => Some(WaitGiveUp)
    case 'R' => Some(ResendMoveOn)
    case 'r' => Some(ResendGiveUp)
    case _ => None
  }

  /** Every rule is read back from its own code, so the codes are distinct. */
  lemma RuleCodeRoundTrip(r: Rule)
    ensures RuleOfCode(RuleCode(r)) == Some(r)
  {
  }

  /** One step of a script. The offsets are seconds; every nullable integer
      column is an `Option<int>`. The poll a step may ask is not modelled. */
  datatype Step = Step(
    order: int,
    message: string,
    rule: Rule,
    startOffset: Option<int>,
    retryOffset: Option<int>,
    giveupOffset: Option<int>,
    numTries: Option<int>)

  /** A script and the steps that point at it, in no particular order. */
  datatype Script = Script(slug: string, name: string, steps: seq<Step>)

  /** Some step of `steps` has order `o`. */
  predicate HasOrder(steps: seq<Step>, o: int)
  {
    exists t :: t in steps && t.order == o
  }

  /** No two positions of `steps` carry the same order. */
  predicate DistinctOrders(steps: seq<Step>)
  {
    forall i, j :: 0 <= i < |steps| && 0 <= j < |steps| && i != j ==> steps[i].order != steps[j].order
  }

  /** Under distinct orders a step is determined by its order. */
  lemma SameOrderSameStep(steps: seq<Step>, a: Step, b: Step)
    requires DistinctOrders(steps)
    requires a in steps && b in steps && a.order == b.order
    ensures a == b
  {
  }

  /** `steps` is in ascending order of `order`. */
  predicate SortedByOrder(steps: seq<Step>)
  {
    forall i, j :: 0 <= i < j < |steps| ==> steps[i].order <= steps[j].order
  }

  /** Inserts `s` into `xs` in front of the first step whose order is not smaller. */
  function Insert(s: Step, xs: seq<Step>): (r: seq<Step>)
    ensures multiset(r) == multiset(xs) + multiset{s}
  {
    if |xs| == 0 || s.order <= xs[0].order then
      [s] + xs
    else
      assert xs == [xs[0]] + xs[1..];
      [xs[0]] + Insert(s, xs[1..])
  }

  /** The steps of `Insert(s, xs)` are `s` and the steps of `xs`. */
  lemma InsertMembers(s: Step, xs: seq<Step>, t: Step)
    ensures t in Insert(s, xs) <==> t == s || t in xs
  {
  }

  /** Inserting into a sorted sequence keeps it sorted. */
  lemma {:induction false} InsertSorted(s: Step, xs: seq<Step>)
    requires SortedByOrder(xs)
    ensures SortedByOrder(Insert(s, xs))
  {
    if |xs| > 0 && s.order > xs[0].order {
      var rest := Insert(s, xs[1..]);
      InsertSorted(s, xs[1..]);
      forall t | t in rest ensures xs[0].order <= t.order {
        InsertMembers(s, xs[1..], t);
        if t != s {
          var k :| 0 <= k < |xs[1..]| && xs[1..][k] == t;
          assert xs[k + 1] == t;
        }
      }
      var r := [xs[0]] + rest;
      forall i, j | 0 <= i < j < |r| ensures r[i].order <= r[j].order {
        if i == 0 {
          assert r[j] == rest[j - 1];
          assert rest[j - 1] in rest;
        } else {
          assert r[i] == rest[i - 1] && r[j] == rest[j - 1];
        }
      }
    }
  }

  /** Inserting a step whose order is new keeps the orders distinct. */
  lemma {:induction false} InsertDistinct(s: Step, xs: seq<Step>)
    requires DistinctOrders(xs) && !HasOrder(xs, s.order)
    ensures DistinctOrders(Insert(s, xs))
  {
    if |xs| == 0 || s.order <= xs[0].order {
      var r := [s] + xs;
      forall i, j | 0 <= i < |r| && 0 <= j < |r| && i != j ensures r[i].order != r[j].order {
        if i == 0 {
          assert r[j] == xs[j - 1] && xs[j - 1] in xs;
        } else if j == 0 {
          assert r[i] == xs[i - 1] && xs[i - 1] in xs;
        } else {
          assert r[i] == xs[i - 1] && r[j] == xs[j - 1];
        }
      }
    } else {
      var rest := Insert(s, xs[1..]);
      assert !HasOrder(xs[1..], s.order) by {
        forall t | t in xs[1..] ensures t.order != s.order {
          var k :| 0 <= k < |xs[1..]| && xs[1..][k] == t;
          assert xs[k + 1] == t && xs[k + 1] in xs;
        }
      }
      InsertDistinct(s, xs[1..]);
      forall t | t in rest ensures t.order != xs[0].order {
        InsertMembers(s, xs[1..], t);
        if t == s {
          assert xs[0] in xs;
        } else {
          var k :| 0 <= k < |xs[1..]| && xs[1..][k] == t;
          assert xs[k + 1] == t;
        }
      }
      var r := [xs[0]] + rest;
      forall i, j | 0 <= i < |r| && 0 <= j < |r| && i != j ensures r[i].order != r[j].order {
        if i == 0 {
          assert r[j] == rest[j - 1] && rest[j - 1] in rest;
        } else if j == 0 {
          assert r[i] == rest[i - 1] && rest[i - 1] in rest;
        } else {
          assert r[i] == rest[i - 1] && r[j] == rest[j - 1];
        }
      }
    }
  }

  /** The steps in ascending order of `order` (`order_by('order')`), by insertion. */
  function SortByOrder(xs: seq<Step>): (r: seq<Step>)
    ensures multiset(r) == multiset(xs)
    ensures |r| == |xs|
  {
    if |xs| == 0 then
      []
    else
      assert xs == [xs[0]] + xs[1..];
      Insert(xs[0], SortByOrder(xs[1..]))
  }

  /** The sorted steps are exactly the steps given. */
  lemma SortMembers(xs: seq<Step>, t: Step)
    ensures t in SortByOrder(xs) <==> t in xs
  {
    assert t in SortByOrder(xs) <==> t in multiset(SortByOrder(xs));
  }

  /** Dropping the first step keeps the orders distinct. */
  lemma DistinctTail(xs: seq<Step>)
    requires |xs| > 0 && DistinctOrders(xs)
    ensures DistinctOrders(xs[1..])
    ensures forall t :: t in xs[1..] ==> t.order != xs[0].order
  {
    forall i, j | 0 <= i < |xs[1..]| && 0 <= j < |xs[1..]| && i != j
      ensures xs[1..][i].order != xs[1..][j].order
    {
      assert xs[1..][i] == xs[i + 1] && xs[1..][j] == xs[j + 1];
    }
    forall t | t in xs[1..] ensures t.order != xs[0].order {
      var k :| 0 <= k < |xs[1..]| && xs[1..][k] == t;
      assert xs[k + 1] == t;
    }
  }

  /** `SortByOrder` returns its steps in ascending order. */
  lemma {:induction false} SortByOrderSorted(xs: seq<Step>)
    ensures SortedByOrder(SortByOrder(xs))
  {
    if |xs| > 0 {
      SortByOrderSorted(xs[1..]);
      InsertSorted(xs[0], SortByOrder(xs[1..]));
    }
  }

  /** `SortByOrder` keeps distinct orders distinct. */
  lemma {:induction false} SortByOrderDistinct(xs: seq<Step>)
    requires DistinctOrders(xs)
    ensures DistinctOrders(SortByOrder(xs))
  {
    if |xs| > 0 {
      var rest := SortByOrder(xs[1..]);
      DistinctTail(xs);
      SortByOrderDistinct(xs[1..]);
      forall t | t in rest ensures t.order != xs[0].order {
        SortMembers(xs[1..], t);
      }
      InsertDistinct(xs[0], rest);
    }
  }

  /** The `order` column of `xs`, position by position. */
  function Orders(xs: seq<Step>): (r: seq<int>)
    ensures |r| == |xs|
    ensures forall i :: 0 <= i < |xs| ==> r[i] == xs[i].order
  {
    seq(|xs|, i requires 0 <= i < |xs| => xs[i].order)
  }

  /** The orders of a step followed by more steps. */
  lemma OrdersCons(a: Step, xs: seq<Step>)
    ensures Orders([a] + xs) == [a.order] + Orders(xs)
  {
  }

  /** Inserting a step adds its order, once, to the orders. */
  lemma {:induction false} InsertOrders(s: Step, xs: seq<Step>)
    ensures multiset(Orders(Insert(s, xs))) == multiset(Orders(xs)) + multiset{s.order}
  {
    if |xs| == 0 || s.order <= xs[0].order {
      OrdersCons(s, xs);
    } else {
      InsertOrders(s, xs[1..]);
      OrdersCons(xs[0], Insert(s, xs[1..]));
      OrdersCons(xs[0], xs[1..]);
      assert xs == [xs[0]] + xs[1..];
    }
  }

  /** Sorting keeps every order as often as the steps carry it. */
  lemma {:induction false} SortByOrderOrders(xs: seq<Step>)
    ensures multiset(Orders(SortByOrder(xs))) == multiset(Orders(xs))
  {
    if |xs| > 0 {
      var rest := SortByOrder(xs[1..]);
      assert SortByOrder(xs) == Insert(xs[0], rest);
      SortByOrderOrders(xs[1..]);
      InsertOrders(xs[0], rest);
      assert xs == [xs[0]] + xs[1..];
      OrdersCons(xs[0], xs[1..]);
      assert multiset(Orders(xs)) == multiset{xs[0].order} + multiset(Orders(xs[1..]));
    }
  }

  /** `steps.order_by('order').values_list('order', flat=True)`: the orders of
      the script's steps, each as often as the steps carry it, ascending, and
      strictly so when they are distinct. */
  function OrderList(steps: seq<Step>): (r: seq<int>)
    ensures |r| == |steps|
    ensures multiset(r) == multiset(Orders(steps))
    ensures forall i, j :: 0 <= i < j < |r| ==> r[i] <= r[j]
    ensures forall o :: o in r <==> HasOrder(steps, o)
    ensures DistinctOrders(steps) ==> forall i, j :: 0 <= i < j < |r| ==> r[i] < r[j]
  {
    var sorted := SortByOrder(steps);
    SortByOrderSorted(steps);
    SortByOrderOrders(steps);
    assert DistinctOrders(steps) ==> DistinctOrders(sorted) by {
      if DistinctOrders(steps) {
        SortByOrderDistinct(steps);
      }
    }
    var r := Orders(sorted);
    assert forall o :: o in r ==> HasOrder(steps, o) by {
      forall o | o in r ensures HasOrder(steps, o) {
        var k :| 0 <= k < |r| && r[k] == o;
        SortMembers(steps, sorted[k]);
      }
    }
    assert forall o :: HasOrder(steps, o) ==> o in r by {
      forall o | HasOrder(steps, o) ensures o in r {
        var t :| t in steps && t.order == o;
        SortMembers(steps, t);
        var k :| 0 <= k < |sorted| && sorted[k] == t;
        assert r[k] == o;
      }
    }
    r
  }

  /** Python's `list.index`: the first position holding `x`, or `None` where
      Python raises `ValueError`. */
  function FirstIndex(xs: seq<int>, x: int): (r: Option<nat>)
    ensures r.None? <==> x !in xs
    ensures r.Some? ==> r.value < |xs| && xs[r.value] == x && x !in xs[..r.value]
  {
    if |xs| == 0 then
      None
    else if xs[0] == x then
      Some(0)
    else
      match FirstIndex(xs[1..], x)
      case None => None
      case Some(i) =>
        assert xs[..i + 1] == [xs[0]] + xs[1..][..i];
        Some(i + 1)
  }

  /** The errors Python raises inside the modelled methods. */
  datatype Fault =
    | NoCurrentStep           // `self.step` is None: AttributeError on `.order` or another field
    | OrderNotInScript        // `list.index` finds no step with the current order: ValueError
    | StepDoesNotExist        // `steps.get(order=...)` matches no step
    | MultipleStepsWithOrder  // `steps.get(order=...)` matches more than one step
    | NoLastStep              // the script has no steps, so `get_last_step()` is None

  /** Two positions of `steps` carry the order `o`. */
  predicate Repeated(steps: seq<Step>, o: int)
  {
    exists i, j :: 0 <= i < j < |steps| && steps[i].order == o && steps[j].order == o
  }

  /** Two positions of `xs` hold `x`. */
  predicate RepeatedIn(xs: seq<int>, x: int)
  {
    exists i, j :: 0 <= i < j < |xs| && xs[i] == x && xs[j] == x
  }

  /** A value sits at two positions exactly when it occurs at least twice. */
  lemma {:induction false} RepeatedCount(xs: seq<int>, x: int)
    ensures RepeatedIn(xs, x) <==> multiset(xs)[x] >= 2
  {
    if |xs| > 0 {
      var tail := xs[1..];
      RepeatedCount(tail, x);
      assert xs == [xs[0]] + tail;
      if xs[0] == x {
        if multiset(xs)[x] >= 2 {
          assert x in multiset(tail);
          var j :| 0 <= j < |tail| && tail[j] == x;
          assert xs[0] == x && xs[j + 1] == x;
        }
        if RepeatedIn(xs, x) {
          var i, j :| 0 <= i < j < |xs| && xs[i] == x && xs[j] == x;
          assert tail[j - 1] == x;
          assert x in tail;
        }
      } else {
        if RepeatedIn(tail, x) {
          var i, j :| 0 <= i < j < |tail| && tail[i] == x && tail[j] == x;
          assert xs[i + 1] == x && xs[j + 1] == x;
        }
        if RepeatedIn(xs, x) {
          var i, j :| 0 <= i < j < |xs| && xs[i] == x && xs[j] == x;
          assert tail[i - 1] == x && tail[j - 1] == x;
        }
      }
    }
  }

  /** An order is repeated among the steps exactly when it is repeated in `values_list('order')`. */
  lemma OrderListRepeated(steps: seq<Step>, o: int)
    ensures Repeated(steps, o) <==> RepeatedIn(OrderList(steps), o)
  {
    var os := Orders(steps);
    assert Repeated(steps, o) <==> RepeatedIn(os, o) by {
      if Repeated(steps, o) {
        var i, j :| 0 <= i < j < |steps| && steps[i].order == o && steps[j].order == o;
        assert os[i] == o && os[j] == o;
      }
      if RepeatedIn(os, o) {
        var i, j :| 0 <= i < j < |os| && os[i] == o && os[j] == o;
        assert steps[i].order == o && steps[j].order == o;
      }
    }
    RepeatedCount(os, o);
    RepeatedCount(OrderList(steps), o);
  }

  /** The steps of `steps` whose order is `o`, in their original order, each
      as often as it occurs. */
  function WithOrder(steps: seq<Step>, o: int): (r: seq<Step>)
    ensures forall t :: t in r <==> t in steps && t.order == o
    ensures DistinctOrders(steps) ==> |r| <= 1
  {
    if |steps| == 0 then
      []
    else
      var rest := WithOrder(steps[1..], o);
      assert DistinctOrders(steps) ==> forall t :: t in steps[1..] ==> t.order != steps[0].order by {
        if DistinctOrders(steps) {
          forall t | t in steps[1..] ensures t.order != steps[0].order {
            var k :| 0 <= k < |steps[1..]| && steps[1..][k] == t;
            assert steps[k + 1] == t;
          }
        }
      }
      assert |rest| > 0 ==> rest[0] in rest;
      assert steps == [steps[0]] + steps[1..];
      if steps[0].order == o then [steps[0]] + rest else rest
  }

  /** `WithOrder` keeps each matching step as often as it occurs, and no other step. */
  lemma {:induction false} WithOrderCounts(steps: seq<Step>, o: int, t: Step)
    ensures multiset(WithOrder(steps, o))[t] == if t.order == o then multiset(steps)[t] else 0
  {
    if |steps| > 0 {
      WithOrderCounts(steps[1..], o, t);
      assert steps == [steps[0]] + steps[1..];
    }
  }

  /** At least two steps match `o` exactly when two positions carry it. */
  lemma {:induction false} WithOrderRepeated(steps: seq<Step>, o: int)
    ensures |WithOrder(steps, o)| >= 2 <==> Repeated(steps, o)
  {
    if |steps| > 0 {
      var tail := steps[1..];
      var rest := WithOrder(tail, o);
      WithOrderRepeated(tail, o);
      assert WithOrder(steps, o) == if steps[0].order == o then [steps[0]] + rest else rest;
      if steps[0].order == o {
        if |rest| >= 1 {
          assert rest[0] in rest;
          var j :| 0 <= j < |tail| && tail[j] == rest[0];
          assert steps[0].order == o && steps[j + 1].order == o;
        }
        if Repeated(steps, o) {
          var i, j :| 0 <= i < j < |steps| && steps[i].order == o && steps[j].order == o;
          assert tail[j - 1] in tail;
        }
      } else {
        if Repeated(tail, o) {
          var i, j :| 0 <= i < j < |tail| && tail[i].order == o && tail[j].order == o;
          assert steps[i + 1].order == o && steps[j + 1].order == o;
        }
        if Repeated(steps, o) {
          var i, j :| 0 <= i < j < |steps| && steps[i].order == o && steps[j].order == o;
          assert tail[i - 1].order == o && tail[j - 1].order == o;
        }
      }
    }
  }

  /** `steps.get(order=o)`: the single step with that order, or the error the
      query raises when there is none or more than one. */
  function StepWithOrder(steps: seq<Step>, o: int): (r: Result<Step, Fault>)
    ensures r.Ok? ==> r.value in steps && r.value.order == o
    ensures r.Ok? <==> HasOrder(steps, o) && !Repeated(steps, o)
    ensures r == Err(StepDoesNotExist) <==> !HasOrder(steps, o)
    ensures r == Err(MultipleStepsWithOrder) <==> Repeated(steps, o)
    ensures r.Err? ==> r.error == StepDoesNotExist || r.error == MultipleStepsWithOrder
    ensures DistinctOrders(steps) && HasOrder(steps, o) ==> r.Ok?
  {
    var matching := WithOrder(steps, o);
    WithOrderRepeated(steps, o);
    assert Repeated(steps, o) ==> HasOrder(steps, o) by {
      if Repeated(steps, o) {
        var i, j :| 0 <= i < j < |steps| && steps[i].order == o && steps[j].order == o;
        assert steps[i] in steps;
      }
    }
    if |matching| == 0 then
      assert !HasOrder(steps, o);
      Err(StepDoesNotExist)
    else if |matching| == 1 then
      assert matching[0] in matching;
      Ok(matching[0])
    else
      assert matching[0] in matching;
      Err(MultipleStepsWithOrder)
  }
}
