# ScriptProgress: step lookup and timing decisions of rapidsms-script

This project models, in Dafny, the read-only core of the `ScriptProgress` record of the
rapidsms-script application. A script is a set of steps, each with an integer `order` and a
timing rule. A progress record ties one connection to one script and holds the current step
(null before the first step), a status (`'C'` complete or `'P'` in progress), the time of its
last save and an attempt counter. The methods of the record answer questions about it: which
step comes next, first or last; whether to retry the current step now, proceed to the next one,
give up, or keep retrying; and whether the script is complete.

Every such method is a pure conditional over stored fields and a clock reading, so each is a
Dafny function:

- `wrappers.dfy`: `Option` for nullable columns, `Result` for calls that raise.
- `script_definition.dfy` (module `ScriptDefinition`): rules and their one-letter codes, steps,
  scripts, and the database lookups the record performs: `order_by('order')` as an insertion
  sort proved to be a sorted permutation, `values_list('order')` as `OrderList`,
  `steps.get(order=…)` as `StepWithOrder`, and Python's `list.index` as `FirstIndex`.
- `script_progress.dfy` (module `ScriptProgress`): the record and its methods.

Modelling choices:

- The database query over a script's steps is a `seq<Step>` in no particular order.
- `datetime.datetime.now()` is the parameter `now`. Times and offsets are whole seconds, and
  `time + timedelta(seconds=o)` is `time + o`.
- An exception the code raises is an `Err(Fault)` result, not a precondition:
  - `NoCurrentStep`: `self.step` is None.
  - `OrderNotInScript`: `list.index` raises `ValueError`.
  - `StepDoesNotExist` / `MultipleStepsWithOrder`: `steps.get` finds no step, or more than one.
  - `NoLastStep`: `script_completion` runs on a script with no steps.
- Offsets and `num_tries` are tested for Python truthiness (`Truthy`), so a zero offset counts
  as no offset, just as an absent one does.
- `get_next_step` finds the current step by its `order` value, as the code does, not by its
  identity. A step with the same order from another script is therefore accepted.
- The code is Python 2. There `None < n` is true for every integer `n`, so `keep_retrying` on a
  record with no attempt count (`num_tries` NULL) is true when the step's `num_tries` is truthy.
- The `False` branch of `keep_retrying` falls off the end and returns None. It is read as false.

- The field comments (script/models.py:45-46, 49, 54-55) describe each offset as a delay to wait
  out, but the code tests `time + offset >= now`, so each test holds only until that moment (see
  Findings).
- An in-progress record with no current step makes `get_next_step` raise (AttributeError on
  `self.step.order`); it does not fall back to the first step.

## Model

| member | source | states |
|---|---|---|
| `ScriptDefinition.RuleOfCode` | script/models.py:32-44 | exactly the five declared rule codes name a rule, and each names the rule whose code it is |
| `ScriptDefinition.RuleCodeRoundTrip` | script/models.py:32-44 | every rule is read back from its own code, so the five codes are distinct |
| `ScriptDefinition.SortByOrderSorted` | script/models.py:91 | `order_by('order')` yields the steps in ascending order |
| `ScriptDefinition.SortByOrderDistinct` | script/models.py:91 | ordering steps with distinct orders keeps their orders distinct |
| `ScriptDefinition.SortByOrder` | script/models.py:91 | the ordered steps are a permutation (same multiset, same length) of the script's steps |
| `ScriptDefinition.SortByOrderOrders` | script/models.py:91 | sorting keeps every order as often as the steps carry it |
| `ScriptDefinition.OrderList` | script/models.py:91 | the list of orders holds each order exactly as often as the steps carry it (same multiset), is ascending (strictly when orders are distinct) and as long as the script |
| `ScriptDefinition.OrderListRepeated` | script/models.py:91 | an order sits at two positions of the list exactly when two steps carry it |
| `ScriptDefinition.FirstIndex` | script/models.py:92 | `list.index`: the first position holding the value, and a failure exactly when the value is absent |
| `ScriptDefinition.WithOrderCounts` | script/models.py:95 | the filter `order=o` keeps each step with order `o` as often as it occurs, and no other step |
| `ScriptDefinition.WithOrderRepeated` | script/models.py:95 | the filter `order=o` matches at least two steps exactly when two positions carry `o` |
| `ScriptDefinition.StepWithOrder` | script/models.py:95 | `steps.get(order=o)` returns a step of the script with order `o` exactly when one position carries `o`; it raises "does not exist" exactly when none does and "multiple objects returned" exactly when two or more do |
| `ScriptProgress.StatusOfCode` | script/models.py:76-79 | exactly 'C' and 'P' name a status, each the one whose code it is |
| `ScriptProgress.NextStep` | script/models.py:86-95 | a complete record has no next step; an in-progress record with no current step, or whose current order is not in the script, raises; None for an in-progress record means its current order is the greatest of the script; a returned step is, for every script, a step of the script with the least order strictly above the current one |
| `ScriptProgress.OrderListLast` | script/models.py:91-93 | when the first occurrence of the current order is the last entry of the ascending list of orders, no step has a greater order |
| `ScriptProgress.OrderListSuccessor` | script/models.py:91-92 | in the ascending list of orders, the entry after the first occurrence of the current order, when the next entry is carried by only one step, is the least order above the current one |
| `ScriptProgress.NextStepIsSuccessor` | script/models.py:86-95 | for an in-progress record whose order is in a script with distinct orders: no error, None exactly when the current order is the greatest, and otherwise exactly the step of least greater order (gaps allowed) |
| `ScriptProgress.NextStepDuplicateOrder` | script/models.py:91-95 | for every in-progress record whose current order is carried by two steps, `get_next_step` raises in `steps.get` |
| `ScriptProgress.NextStepDuplicateExample` | script/models.py:91-95 | an instance: two steps of order 1, current the first, make `get_next_step` raise |
| `ScriptProgress.InitialStep` | script/models.py:97-101 | `get_initial_step` is a step of least order, None exactly when the script has no steps |
| `ScriptProgress.LastStep` | script/models.py:102-106 | `get_last_step` is a step of greatest order, None exactly when the script has no steps |
| `ScriptProgress.RetryNow` | script/models.py:109-117 | raises without a current step; true when its retry offset is absent or 0; otherwise `time + retry_offset >= now` |
| `ScriptProgress.RetryNowAntitone` | script/models.py:109-117 | if `retry_now` holds at some moment it holds at every earlier one |
| `ScriptProgress.Proceed` | script/models.py:120-129 | errors of `get_next_step` propagate; true for a complete record or with no next step; otherwise decided by the next step's start offset with the same comparison |
| `ScriptProgress.ProceedBySuccessor` | script/models.py:120-129 | on a well-formed in-progress record: no error, true at the last step, otherwise true iff the successor's start offset is absent/0 or `time + start_offset >= now` |
| `ScriptProgress.ProceedAntitone` | script/models.py:120-129 | if `proceed` holds at some moment it holds at every earlier one |
| `ScriptProgress.GiveUpNow` | script/models.py:144-152 | raises without a current step; true when its give-up offset is absent or 0; otherwise `time + giveup_offset >= now` |
| `ScriptProgress.GiveUpNowAntitone` | script/models.py:144-152 | if `give_up_now` holds at some moment it holds at every earlier one |
| `ScriptProgress.KeepRetrying` | script/models.py:155-159 | raises without a current step; true iff the step's `num_tries` is set and nonzero and the attempt count is unset or below it; false (the code's None) otherwise |
| `ScriptProgress.KeepRetryingAntitone` | script/models.py:155-159 | lowering the attempt count never turns `keep_retrying` off |
| `ScriptProgress.Completion` | script/models.py:165-171 | raises without a current step or without a last step; otherwise answers yes or no |
| `ScriptProgress.CompletionIff` | script/models.py:167-171 | the completion test holds iff the record is complete and its current order is the greatest order of the script |
| `ScriptProgress.RetryNowInverted` | script/models.py:112 | with a 60-second retry offset the code says "retry" at 0 s and "wait" at 120 s; the intended test says the opposite |
| `ScriptProgress.RetryDue` | script/models.py:109-117 | the intended retry test: true with no offset, otherwise once `now >= time + retry_offset` |
| `ScriptProgress.RetryDueMonotone` | script/models.py:109-117 | once the intended retry test holds it keeps holding |
| `ScriptProgress.ProceedInverted` | script/models.py:124 | with a next step starting 60 s later the code says "proceed" at 0 s and "wait" at 120 s; the intended test says the opposite |
| `ScriptProgress.ProceedDue` | script/models.py:120-129 | the intended proceed test: errors propagate, true with no next step, otherwise once the start offset has elapsed |
| `ScriptProgress.ProceedDueMonotone` | script/models.py:120-129 | once the intended proceed test holds it keeps holding |
| `ScriptProgress.GiveUpNowInverted` | script/models.py:147 | with a one-hour give-up offset the code says "give up" at 0 s and "wait" at 7200 s; the intended test says the opposite |
| `ScriptProgress.GiveUpDue` | script/models.py:144-152 | the intended give-up test: true with no offset, otherwise once `now >= time + giveup_offset` |
| `ScriptProgress.GiveUpDueMonotone` | script/models.py:144-152 | once the intended give-up test holds it keeps holding |

## Left out

- script/fields.py is not part of this model. It is a JSON codec and form/field glue over libraries that are not present, and it plays no part in step progression.
- The Django ORM, the `sites` many-to-many with `CurrentSiteManager` scoping, and the `Poll` and `Connection` foreign keys are left out. A script's steps are a sequence, and a step's poll is not represented.
- The `auto_now` refresh of `time` on save is left out. It is a persistence side effect; `time` is a plain field of the record.
- `datetime.datetime.now()` is the parameter `now`. Date arithmetic that overflows the range of `datetime`, and a `time` never saved (None), are not modelled.
- The signal handlers' ORM lookups are left out, and `get_script_progress` with them. Their `get_for_model` calls are foreign or broken, and their `post_save` hookups are commented out. Only the comparison inside `script_completion` is modelled, as `Completion`.
- The commented-out `give_up_proceed` is left out because it is not code.
- `__unicode__` formatting and the 160-character limit on `message` are left out. They do not affect progression.
- A status other than 'C' or 'P' cannot be represented. `get_next_step` would treat any such value as in progress.
- `LastStep`: when several steps share the greatest order, the database may return any of them. The model returns one fixed choice; only "some step of greatest order" is stated.
- `InitialStep`: likewise, among steps sharing the least order only "some step of least order" is stated.
- `NextStepIsSuccessor` and `ProceedBySuccessor` assume distinct orders, for their "raises nothing" part and for "None whenever the current order is the greatest". With repeated orders the code may raise instead, as `NextStepDuplicateOrder` shows. Whatever the orders, a step that `NextStep` returns is the strict successor, and a None it returns for an in-progress record means the current order is the greatest, as stated by `NextStep` itself.
- No method of the record writes `step`, `status` or `num_tries`. So there is no transition function, resend bookkeeping, send instruction or locking to model.

## Findings

| source | as written | input that shows it | evidently intended | confidence | as-written member | corrected member |
|---|---|---|---|---|---|---|
| script/models.py:112 | `retry_time >= now`: "retry now" holds until the retry time, then stops holding | retry offset 60 s, `time` 0: true at `now` 0, false at `now` 120 | retry once `now >= time + retry_offset` | medium, not executed | `ScriptProgress.RetryNowInverted` | `ScriptProgress.RetryDue` |
| script/models.py:124 | `start_time >= now`: "proceed" holds until the next step's start time, then stops holding | next step with start offset 60 s, `time` 0: true at `now` 0, false at `now` 120 | proceed once `now >= time + start_offset` | medium, not executed | `ScriptProgress.ProceedInverted` | `ScriptProgress.ProceedDue` |
| script/models.py:147 | `give_up_time >= now`: "give up" holds until the give-up time, then stops holding | give-up offset 3600 s, `time` 0: true at `now` 0, false at `now` 7200 | give up once `now >= time + giveup_offset` | medium, not executed | `ScriptProgress.GiveUpNowInverted` | `ScriptProgress.GiveUpDue` |
