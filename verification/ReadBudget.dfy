/** Payload and row budget of one Antigravity conversation read (src/agy_store.rs).

    `Consume` is charged once per row while rows stream in; `ValidateStepTotals` looks at
    SQL aggregates before any payload is loaded. The main result says the two agree. */
module ReadBudget {
  import opened Ordering
  import opened Text

  const MAX_PAYLOAD_BYTES: nat := 16 * 1024 * 1024
  const MAX_TOTAL_PAYLOAD_BYTES: nat := 64 * 1024 * 1024
  const MAX_STEP_ROWS: nat := 100_000

  datatype ReadError = PayloadTooLarge | ConversationTooLarge | TooManySteps

  datatype Result<+T> = Ok(value: T) | Err(error: ReadError)

  /** The two counters of a read in progress. */
  datatype Totals = Totals(bytes: nat, rows: nat)

  /** The bound under which neither `MAX - spent` can underflow. */
  predicate InBounds(t: Totals) {
    t.bytes <= MAX_TOTAL_PAYLOAD_BYTES && t.rows <= MAX_STEP_ROWS
  }

  /** A row of the `steps` table; a NULL payload is `None`. */
  datatype StepRow = StepRow(idx: int, stepType: int, status: Option<int>, stepFormat: Option<int>,
                             payload: Option<seq<bv8>>)

  function PayloadLen(row: StepRow): nat {
    match row.payload
    case Some(bytes) => |bytes|
    case None => 0
  }

  /** What one charge does to the counters. */
  function Charge(t: Totals, bytes: nat, isStep: bool): Result<Totals>
    requires InBounds(t)
  {
    if bytes > MAX_PAYLOAD_BYTES then Err(PayloadTooLarge)
    else if bytes > MAX_TOTAL_PAYLOAD_BYTES - t.bytes then Err(ConversationTooLarge)
    else if isStep && t.rows >= MAX_STEP_ROWS then Err(TooManySteps)
    else Ok(Totals(t.bytes + bytes, if isStep then t.rows + 1 else t.rows))
  }

  /** Charging a list of step payloads one after the other, stopping at the first refusal. */
  function ChargeAll(t: Totals, lens: seq<nat>): (r: Result<Totals>)
    requires InBounds(t)
    ensures r.Ok? ==> InBounds(r.value)
    decreases |lens|
  {
    if lens == [] then Ok(t)
    else
      match Charge(t, lens[0], true)
      case Err(e) => Err(e)
      case Ok(t') => ChargeAll(t', lens[1..])
  }

  function Lens(rows: seq<StepRow>): seq<nat> {
    Map(PayloadLen, rows)
  }

  // SQL aggregates: NULL payloads are skipped, and an aggregate over no value is NULL.

  function SqlSum(rows: seq<StepRow>): Option<nat> {
    if rows == [] then None
    else
      var rest := SqlSum(rows[1..]);
      match rows[0].payload
      case None => rest
      case Some(p) => Some(|p| + Coalesce(rest))
  }

  function SqlMax(rows: seq<StepRow>): Option<nat> {
    if rows == [] then None
    else
      var rest := SqlMax(rows[1..]);
      match rows[0].payload
      case None => rest
      case Some(p) => Some(if |p| >= Coalesce(rest) then |p| else Coalesce(rest))
  }

  function Coalesce(n: Option<nat>): nat {
    match n
    case None => 0
    case Some(v) => v
  }

  predicate Speech(row: StepRow) { row.stepType == 14 || row.stepType == 15 }

  function Selected(rows: seq<StepRow>, speechOnly: bool): seq<StepRow> {
    if speechOnly then Filter(rows, (row: StepRow) => Speech(row)) else rows
  }

  lemma {:induction false} SqlSumIsSum(rows: seq<StepRow>)
    ensures Coalesce(SqlSum(rows)) == Sum(Lens(rows))
  {
    if rows != [] {
      SqlSumIsSum(rows[1..]);
      assert Lens(rows)[1..] == Lens(rows[1..]);
    }
  }

  lemma {:induction false} SqlMaxIsBound(rows: seq<StepRow>, n: nat)
    ensures Coalesce(SqlMax(rows)) <= n <==> forall i :: 0 <= i < |rows| ==> PayloadLen(rows[i]) <= n
  {
    if rows != [] {
      SqlMaxIsBound(rows[1..], n);
      assert rows == [rows[0]] + rows[1..];
    }
  }

  /** When a stream of charges goes through, and where it ends. */
  lemma {:induction false} ChargeAllSucceeds(t: Totals, lens: seq<nat>)
    requires InBounds(t)
    ensures ChargeAll(t, lens).Ok? <==>
              && (forall i :: 0 <= i < |lens| ==> lens[i] <= MAX_PAYLOAD_BYTES)
              && t.bytes + Sum(lens) <= MAX_TOTAL_PAYLOAD_BYTES
              && t.rows + |lens| <= MAX_STEP_ROWS
    ensures ChargeAll(t, lens).Ok? ==>
              ChargeAll(t, lens).value == Totals(t.bytes + Sum(lens), t.rows + |lens|)
    decreases |lens|
  {
    if lens != [] {
      assert lens == [lens[0]] + lens[1..];
      match Charge(t, lens[0], true)
      case Err(_) =>
      case Ok(t') => ChargeAllSucceeds(t', lens[1..]);
    }
  }

  lemma SameBound(a: seq<nat>, b: seq<nat>)
    requires forall x :: x in a <==> x in b
    requires forall i :: 0 <= i < |a| ==> a[i] <= MAX_PAYLOAD_BYTES
    ensures forall i :: 0 <= i < |b| ==> b[i] <= MAX_PAYLOAD_BYTES
  {
    forall i | 0 <= i < |b| ensures b[i] <= MAX_PAYLOAD_BYTES {
      assert b[i] in a;
    }
  }

  /** The streaming verdict and the final counters do not depend on row order. */
  lemma ChargeOrderIrrelevant(t: Totals, a: seq<nat>, b: seq<nat>)
    requires InBounds(t) && multiset(a) == multiset(b)
    ensures ChargeAll(t, a).Ok? <==> ChargeAll(t, b).Ok?
    ensures ChargeAll(t, a).Ok? ==> ChargeAll(t, a) == ChargeAll(t, b)
  {
    ChargeAllSucceeds(t, a);
    ChargeAllSucceeds(t, b);
    SumPermutation(a, b);
    SameElements(a, b);
    if forall i :: 0 <= i < |a| ==> a[i] <= MAX_PAYLOAD_BYTES { SameBound(a, b); }
    if forall i :: 0 <= i < |b| ==> b[i] <= MAX_PAYLOAD_BYTES { SameBound(b, a); }
  }

  /** The aggregate check over the selected rows. */
  function StepTotalsCheck(t: Totals, rows: seq<StepRow>, speechOnly: bool): Result<()>
    requires InBounds(t)
  {
    var chosen := Selected(rows, speechOnly);
    if Coalesce(SqlMax(chosen)) > MAX_PAYLOAD_BYTES then Err(PayloadTooLarge)
    else if Coalesce(SqlSum(chosen)) > MAX_TOTAL_PAYLOAD_BYTES - t.bytes then Err(ConversationTooLarge)
    else if |chosen| > MAX_STEP_ROWS - t.rows then Err(TooManySteps)
    else Ok(())
  }

  /** The aggregate check accepts exactly when streaming the same rows, in whatever order the
      query returns them, is never refused; the counters then end at start plus sums. */
  lemma TotalsCheckIsExact(t: Totals, rows: seq<StepRow>, speechOnly: bool, streamed: seq<StepRow>)
    requires InBounds(t)
    requires multiset(streamed) == multiset(Selected(rows, speechOnly))
    ensures StepTotalsCheck(t, rows, speechOnly).Ok? <==> ChargeAll(t, Lens(streamed)).Ok?
    ensures StepTotalsCheck(t, rows, speechOnly).Ok? ==>
              ChargeAll(t, Lens(streamed))
              == Ok(Totals(t.bytes + Coalesce(SqlSum(Selected(rows, speechOnly))), t.rows + |streamed|))
  {
    hide ChargeAll, Sum, Selected, SqlSum, SqlMax, Map;
    var chosen := Selected(rows, speechOnly);
    SqlSumIsSum(chosen);
    SqlMaxIsBound(chosen, MAX_PAYLOAD_BYTES);
    ChargeAllSucceeds(t, Lens(chosen));
    MapPermutation(PayloadLen, streamed, chosen);
    ChargeOrderIrrelevant(t, Lens(streamed), Lens(chosen));
    SameElements(streamed, chosen);
  }

  /** The budget object threaded through one read. */
  class ReadBudget {
    var bytes: nat
    var rows: nat

    ghost predicate Valid() reads this { InBounds(Value()) }

    function Value(): Totals reads this { Totals(bytes, rows) }

    constructor ()
      ensures Valid() && Value() == Totals(0, 0)
    {
      bytes, rows := 0, 0;
    }

    /** Charges one payload. A refused charge leaves both counters alone; an accepted one keeps
        them inside their limits, so the subtraction below never underflows. */
    method Consume(n: nat, isStep: bool) returns (r: Result<()>)
      requires Valid()
      modifies this
      ensures Valid()
      ensures r.Ok? <==> Charge(old(Value()), n, isStep).Ok?
      ensures r.Ok? ==> Value() == Charge(old(Value()), n, isStep).value
      ensures r.Err? ==> Value() == old(Value()) && r.error == Charge(old(Value()), n, isStep).error
    {
      if n > MAX_PAYLOAD_BYTES {
        return Err(PayloadTooLarge);
      }
      var room: nat := MAX_TOTAL_PAYLOAD_BYTES - bytes;
      if n > room {
        return Err(ConversationTooLarge);
      }
      if isStep {
        if rows >= MAX_STEP_ROWS {
          return Err(TooManySteps);
        }
        rows := rows + 1;
      }
      bytes := bytes + n;
      return Ok(());
    }
  }

  method ValidateStepTotals(budget: ReadBudget, rows: seq<StepRow>, speechOnly: bool) returns (r: Result<()>)
    requires budget.Valid()
    ensures r == StepTotalsCheck(budget.Value(), rows, speechOnly)
  {
    var chosen := Selected(rows, speechOnly);
    var largest, total := Coalesce(SqlMax(chosen)), Coalesce(SqlSum(chosen));
    if largest > MAX_PAYLOAD_BYTES {
      return Err(PayloadTooLarge);
    }
    var room: nat := MAX_TOTAL_PAYLOAD_BYTES - budget.bytes;
    if total > room {
      return Err(ConversationTooLarge);
    }
    var left: nat := MAX_STEP_ROWS - budget.rows;
    if |chosen| > left {
      return Err(TooManySteps);
    }
    return Ok(());
  }

  /** Loads every step. `streamed` is the table in the order the query yields it. The only refusal
      is the aggregate one, raised before a payload is charged: past it, every row is loaded. */
  method LoadSteps(budget: ReadBudget, table: seq<StepRow>, streamed: seq<StepRow>)
    returns (r: Result<seq<StepRow>>)
    requires budget.Valid() && multiset(streamed) == multiset(table)
    modifies budget
    ensures budget.Valid()
    ensures r.Ok? <==> StepTotalsCheck(old(budget.Value()), table, false).Ok?
    ensures r.Ok? ==> r.value == streamed
    ensures r.Ok? ==> budget.Value() == Totals(old(budget.bytes) + Sum(Lens(table)), old(budget.rows) + |table|)
    ensures r.Err? ==> budget.Value() == old(budget.Value())
    ensures r.Err? ==> r.error == StepTotalsCheck(old(budget.Value()), table, false).error
  {
    var check := ValidateStepTotals(budget, table, false);
    if check.Err? {
      return Err(check.error);
    }
    ghost var start := budget.Value();
    TotalsCheckIsExact(start, table, false, streamed);
    SqlSumIsSum(table);
    SameElements(streamed, table);
    var steps := [];
    for i := 0 to |streamed|
      invariant budget.Valid()
      invariant steps == streamed[..i]
      invariant ChargeAll(start, Lens(streamed)) == ChargeAll(budget.Value(), Lens(streamed)[i..])
    {
      assert Lens(streamed)[i..][1..] == Lens(streamed)[i + 1..];
      var charged := budget.Consume(PayloadLen(streamed[i]), true);
      assert charged.Ok?;  // so the early return on a refused charge is never taken
      steps := steps + [streamed[i]];
    }
    assert streamed[..|streamed|] == streamed;
    return Ok(steps);
  }
}
