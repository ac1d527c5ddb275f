/** lib/decision_capture.py with several threads sharing one capture: the critical section under `_log_lock`
    as its single effects, so that a crash can fall between any two, and `close` outside the lock. */
module DecisionThreads {
  import opened Hashing
  import opened DecisionStream

  datatype Config<!R> = Config(dumps: Dumps<R>, buffered: bool, bufferRows: nat, open: seq<bool>) {
    predicate Valid() {
      bufferRows > 0 && |open| == 3
    }

    /** How many rows may be on their way to disk. */
    function Limit(): nat {
      if buffered then bufferRows else 1
    }
  }

  /** Where the thread holding the lock stands: `Logging(r)` and `Flushing` have just taken the lock;
      `Emitting` has passed the first `k` streams, and found the first `gone` handles dropped when it began. */
  datatype Pc<R> = Idle | Logging(r: R) | Remembered(r: R) | Flushing | Emitting(rows: seq<string>, k: nat, gone: nat) | Leaving

  /** `close` closes and then drops the three handles one after the other: `stage` counts these six effects.
      `raised` records that a write has met a handle closed under it. */
  datatype State<R> = State(decisions: seq<R>, buffer: seq<string>, disks: seq<string>, holder: Option<nat>, pc: Pc<R>, stage: nat, raised: bool) {
    function Closed(): nat {
      (stage + 1) / 2
    }

    function Dropped(): nat {
      stage / 2
    }
  }

  datatype Step<R> =
    | TakeToLog(t: nat, r: R)
    | TakeToFlush(t: nat)
    | Remember(t: nat)
    | Serialise(t: nat)
    | Drain(t: nat)
    | EmitOne(t: nat)
    | Release(t: nat)
    | CloseNext

  /** Any thread may ask for the lock at any time; only the holder moves inside.  A close flushes under the
      lock like any other flush, and then moves without it. */
  predicate Enabled<R>(s: State<R>, a: Step<R>) {
    match a
    case TakeToLog(_, _) => s.holder == None
    case TakeToFlush(_) => s.holder == None
    case Remember(t) => s.holder == Some(t) && s.pc.Logging?
    case Serialise(t) => s.holder == Some(t) && s.pc.Remembered?
    case Drain(t) => s.holder == Some(t) && s.pc.Flushing?
    case EmitOne(t) => s.holder == Some(t) && s.pc.Emitting? && s.pc.k < 3
    case CloseNext => s.stage < 6
    case Release(t) => s.holder == Some(t) && (s.pc.Leaving? || (s.pc.Emitting? && s.pc.k == 3))
  }

  function Do<R>(c: Config<R>, s: State<R>, a: Step<R>): State<R>
    requires c.Valid() && Enabled(s, a) && |s.disks| == 3
  {
    match a
    case TakeToLog(t, r) => s.(holder := Some(t), pc := Logging(r))
    case TakeToFlush(t) => s.(holder := Some(t), pc := Flushing)
    case Remember(_) => s.(decisions := s.decisions + [s.pc.r], pc := Remembered(s.pc.r))
    case Serialise(_) =>
      // a record that cannot be serialised raises here
      (match c.dumps(s.pc.r)
       case None => s.(pc := Leaving)
       case Some(text) =>
         var line := text + "\n";
         if !c.buffered then s.(pc := Emitting([line], 0, s.Dropped()))
         else if |s.buffer| + 1 >= c.bufferRows then s.(buffer := s.buffer + [line], pc := Flushing)
         else s.(buffer := s.buffer + [line], pc := Leaving))
    case Drain(_) =>
      if s.buffer == [] then s.(pc := Leaving)
      else s.(buffer := [], pc := Emitting(s.buffer, 0, s.Dropped()))
    case EmitOne(_) =>
      var k := s.pc.k;
      if !c.open[k] || k < s.pc.gone then s.(pc := s.pc.(k := k + 1))
      else if k < s.Closed() then s.(pc := Leaving, raised := true)
      else s.(disks := s.disks[k := s.disks[k] + Join(s.pc.rows)], pc := s.pc.(k := k + 1))
    case CloseNext => s.(stage := s.stage + 1)
    case Release(_) => s.(holder := None, pc := Idle)
  }

  /* ---------------------------------------------------------------- one call as steps */

  /** The steps of one undisturbed `log_decision`. */
  function LogSteps<R>(c: Config<R>, buffered: nat, t: nat, r: R): seq<Step<R>> {
    [TakeToLog(t, r)] + ([Remember(t)] + ([Serialise(t)] +
      if c.dumps(r) == None then [Release(t)]
      else if !c.buffered then EmitSteps(t, 3)
      else if buffered + 1 < c.bufferRows then [Release(t)]
      else [Drain(t)] + EmitSteps(t, 3)))
  }

  function EmitSteps<R>(t: nat, n: nat): seq<Step<R>> {
    if n == 0 then [Release(t)] else [EmitOne(t)] + EmitSteps(t, n - 1)
  }

  /** The state after the given steps, if each is possible in its turn. */
  function After<R>(c: Config<R>, s: State<R>, steps: seq<Step<R>>): Option<State<R>>
    requires c.Valid()
    decreases |steps|
  {
    if steps == [] then Some(s)
    else if |s.disks| == 3 && Enabled(s, steps[0]) then After(c, Do(c, s, steps[0]), steps[1..])
    else None
  }

  lemma {:induction false} AfterStep<R>(c: Config<R>, s: State<R>, a: Step<R>, rest: seq<Step<R>>)
    requires c.Valid() && |s.disks| == 3 && Enabled(s, a)
    ensures After(c, s, [a] + rest) == After(c, Do(c, s, a), rest)
  {
    assert ([a] + rest)[1..] == rest;
  }

  /** Each open stream from number `k` on with the data added. */
  function WithData<R>(c: Config<R>, disks: seq<string>, data: string, k: nat): seq<string>
    requires c.Valid() && |disks| == 3
  {
    seq(3, i requires 0 <= i < 3 => if c.open[i] && i >= k then disks[i] + data else disks[i])
  }

  /** Writing rows to the streams that are left, when no handle is closed or dropped. */
  lemma {:induction false} EmitsToAll<R>(c: Config<R>, s: State<R>, t: nat, rows: seq<string>, k: nat)
    requires c.Valid() && |s.disks| == 3 && s.stage == 0 && s.holder == Some(t) && k <= 3 && s.pc == Emitting(rows, k, 0)
    ensures After(c, s, EmitSteps(t, 3 - k)) == Some(s.(disks := WithData(c, s.disks, Join(rows), k), holder := None, pc := Idle))
    decreases 3 - k
  {
    if k == 3 {
      AfterStep(c, s, Release(t), []);
      var done: seq<Step<R>> := [Release(t)];
      assert done + [] == done && WithData(c, s.disks, Join(rows), 3) == s.disks;
    } else {
      var next := Do(c, s, EmitOne(t));
      AfterStep(c, s, EmitOne(t), EmitSteps(t, 3 - (k + 1)));
      EmitsToAll(c, next, t, rows, k + 1);
      assert WithData(c, next.disks, Join(rows), k + 1) == WithData(c, s.disks, Join(rows), k);
    }
  }

  /** Undisturbed, these steps do to decisions, buffer and streams what `DecisionCapture.LogDecision` promises. */
  lemma {:induction false} LogIsTheseSteps<R>(c: Config<R>, s: State<R>, t: nat, r: R)
    requires c.Valid() && |s.disks| == 3 && s.stage == 0 && s.holder == None && s.pc == Idle
    requires |s.buffer| < c.bufferRows && (!c.buffered ==> s.buffer == [])
    ensures var (after, line) := (After(c, s, LogSteps(c, |s.buffer|, t, r)), match c.dumps(r) { case None => "" case Some(text) => text + "\n" });
            && after.Some? && after.value.decisions == s.decisions + [r] && after.value.holder == None && after.value.pc == Idle
            && if c.dumps(r) == None then after.value.disks == s.disks && after.value.buffer == s.buffer
               else if !c.buffered then after.value.disks == WithData(c, s.disks, line, 0) && after.value.buffer == []
               else if |s.buffer| + 1 < c.bufferRows then after.value.disks == s.disks && after.value.buffer == s.buffer + [line]
               else after.value.disks == WithData(c, s.disks, Join(s.buffer + [line]), 0) && after.value.buffer == []
  {
    var s1 := Do(c, s, TakeToLog(t, r));
    var s2 := Do(c, s1, Remember(t));
    var s3 := Do(c, s2, Serialise(t));
    var end: seq<Step<R>> := if c.dumps(r) == None then [Release(t)]
                             else if !c.buffered then EmitSteps(t, 3)
                             else if |s.buffer| + 1 < c.bufferRows then [Release(t)]
                             else [Drain(t)] + EmitSteps(t, 3);
    AfterStep(c, s, TakeToLog(t, r), [Remember(t)] + ([Serialise(t)] + end));
    AfterStep(c, s1, Remember(t), [Serialise(t)] + end);
    AfterStep(c, s2, Serialise(t), end);
    assert After(c, s, LogSteps(c, |s.buffer|, t, r)) == After(c, s3, end);
    if c.dumps(r) == None || (c.buffered && |s.buffer| + 1 < c.bufferRows) {
      assert end == [Release(t)] + [];
      AfterStep(c, s3, Release(t), []);
    } else if !c.buffered {
      var line := c.dumps(r).value + "\n";
      EmitsToAll(c, s3, t, [line], 0);
      JoinSnoc([], line);
      assert [] + [line] == [line] && "" + line == line;
    } else {
      AfterStep(c, s3, Drain(t), EmitSteps(t, 3));
      EmitsToAll(c, Do(c, s3, Drain(t)), t, s3.buffer, 0);
    }
  }

  /* ---------------------------------------------------------------- runs */

  ghost predicate Run<R>(c: Config<R>, states: seq<State<R>>, steps: seq<Step<R>>) {
    && c.Valid() && |states| == |steps| + 1
    && states[0] == State([], [], ["", "", ""], None, Idle, 0, false)
    && forall i {:trigger steps[i]} | 0 <= i < |steps| :: |states[i].disks| == 3 && Enabled(states[i], steps[i]) && states[i + 1] == Do(c, states[i], steps[i])
  }

  /** Decisions whose row has left `log_decision`'s hands. */
  function Handed<R>(s: State<R>): seq<R> {
    if s.pc.Remembered? && s.decisions != [] then s.decisions[..|s.decisions| - 1] else s.decisions
  }

  /** Rows taken out of the buffer, or never put there, that stream `i` still has to receive. */
  function InFlight<R>(s: State<R>, i: nat): seq<string> {
    if s.pc.Emitting? && i >= s.pc.k then s.pc.rows else []
  }

  /** A disk that has all the rows but the pending ones. */
  ghost predicate Behind(disk: string, pending: seq<string>, rows: seq<string>) {
    && |pending| <= |rows|
    && rows[|rows| - |pending|..] == pending
    && disk == Join(rows[..|rows| - |pending|])
  }

  lemma {:induction false} BehindOneMore(disk: string, pending: seq<string>, rows: seq<string>, line: string)
    requires Behind(disk, pending, rows)
    ensures Behind(disk, pending + [line], rows + [line])
  {
    assert (rows + [line])[..|rows| - |pending|] == rows[..|rows| - |pending|];
  }

  lemma {:induction false} BehindNothing(disk: string, pending: seq<string>, rows: seq<string>)
    requires Behind(disk, pending, rows)
    ensures Behind(disk + Join(pending), [], rows) && disk + Join(pending) == Join(rows)
  {
    JoinConcat(rows[..|rows| - |pending|], pending);
    assert rows == rows[..|rows| - |pending|] + pending;
    assert rows[..|rows|] == rows;
  }

  /** A disk that will not have all the rows even with the pending ones. */
  ghost predicate Short(disk: string, pending: seq<string>, rows: seq<string>) {
    |disk| + |Join(pending)| < |Join(rows)|
  }

  ghost predicate NoneEmpty(rows: seq<string>) {
    forall i | 0 <= i < |rows| :: rows[i] != ""
  }

  lemma {:induction false} RowsNoneEmpty<R>(dumps: Dumps<R>, decisions: seq<R>)
    ensures NoneEmpty(Rows(dumps, decisions))
  {
    if decisions != [] {
      RowsNoneEmpty(dumps, decisions[..|decisions| - 1]);
    }
  }

  /** A row more is at least a character more. */
  lemma {:induction false} LongerJoin(rows: seq<string>, more: seq<string>)
    requires NoneEmpty(more)
    ensures Join(rows + more) == Join(rows) + Join(more) && (more != [] ==> |Join(more)| > 0)
  {
    JoinConcat(rows, more);
  }

  /* ---------------------------------------------------------------- what each step does to one stream */

  ghost predicate Frame<R>(c: Config<R>, s: State<R>) {
    && c.Valid() && |s.disks| == 3
    && (s.holder == None <==> s.pc.Idle?)
    && (s.pc.Remembered? ==> s.decisions != [] && s.decisions[|s.decisions| - 1] == s.pc.r)
    && (s.pc.Emitting? ==> s.pc.k <= 3 && s.buffer == [] && s.pc.rows != [] && NoneEmpty(s.pc.rows) && |s.pc.rows| <= c.Limit())
    && NoneEmpty(s.buffer) && (!c.buffered ==> s.buffer == [])
    && s.stage <= 6 && (s.pc.Emitting? ==> s.pc.gone <= s.Dropped())
    && |s.buffer| < c.bufferRows + (if s.pc.Flushing? then 1 else 0)
  }

  lemma {:induction false} StepKeepsFrame<R>(c: Config<R>, s: State<R>, a: Step<R>)
    requires Frame(c, s) && Enabled(s, a)
    ensures Frame(c, Do(c, s, a))
  {
  }

  /** The rows in flight will not reach stream `i`: its handle was dropped before the write began, or the write
      meets a handle closed under it, this stream's or an earlier one's, and raises. */
  predicate Skips<R>(c: Config<R>, s: State<R>, a: Step<R>, i: nat)
    requires c.Valid()
  {
    && a.EmitOne? && Enabled(s, a) && i < 3 && c.open[i]
    && var k := s.pc.k;
       || (k == i && i < s.pc.gone)
       || (k <= i && c.open[k] && s.pc.gone <= k < s.Closed())
  }

  /** In step with the decisions, or short of them for good once rows have been skipped. */
  ghost predicate StreamOk<R>(c: Config<R>, s: State<R>, i: nat, skipped: bool)
    requires c.Valid() && |s.disks| == 3 && i < 3
  {
    var (pending, rows) := (InFlight(s, i) + s.buffer, Rows(c.dumps, Handed(s)));
    if skipped then Short(s.disks[i], pending, rows) else Behind(s.disks[i], pending, rows)
  }

  lemma {:induction false} SameStream<R>(c: Config<R>, s: State<R>, s': State<R>, i: nat, skipped: bool)
    requires c.Valid() && |s.disks| == |s'.disks| == 3 && i < 3 && s'.disks[i] == s.disks[i]
    requires InFlight(s', i) + s'.buffer == InFlight(s, i) + s.buffer
    requires Rows(c.dumps, Handed(s')) == Rows(c.dumps, Handed(s))
    requires StreamOk(c, s, i, skipped)
    ensures StreamOk(c, s', i, skipped)
  {
  }

  lemma {:induction false} RowMore<R>(c: Config<R>, s: State<R>, s': State<R>, i: nat, skipped: bool, line: string)
    requires c.Valid() && |s.disks| == |s'.disks| == 3 && i < 3 && s'.disks[i] == s.disks[i]
    requires InFlight(s', i) + s'.buffer == InFlight(s, i) + s.buffer + [line]
    requires Rows(c.dumps, Handed(s')) == Rows(c.dumps, Handed(s)) + [line]
    requires StreamOk(c, s, i, skipped)
    ensures StreamOk(c, s', i, skipped)
  {
    var (pending, rows) := (InFlight(s, i) + s.buffer, Rows(c.dumps, Handed(s)));
    JoinSnoc(pending, line);
    JoinSnoc(rows, line);
    if !skipped {
      BehindOneMore(s.disks[i], pending, rows, line);
    }
  }

  /** The new row is in the buffer or on its way to every stream. */
  lemma {:induction false} SerialisedRow<R>(c: Config<R>, s: State<R>, t: nat, i: nat)
    requires Frame(c, s) && Enabled(s, Serialise(t)) && c.dumps(s.pc.r).Some? && i < 3
    ensures var (s', line) := (Do(c, s, Serialise(t)), c.dumps(s.pc.r).value + "\n");
            && s'.disks == s.disks && Handed(s') == s.decisions
            && InFlight(s', i) + s'.buffer == InFlight(s, i) + s.buffer + [line]
  {
    var (s', line) := (Do(c, s, Serialise(t)), c.dumps(s.pc.r).value + "\n");
    assert InFlight(s, i) == [];
    assert [] + s.buffer == s.buffer;
    if c.buffered {
      assert s'.buffer == s.buffer + [line] && InFlight(s', i) == [];
      assert [] + s'.buffer == s'.buffer;
    } else {
      assert s.buffer == [] && s'.buffer == [] && InFlight(s', i) == [line];
      assert [line] + [] == [] + [line];
    }
  }

  /** A record that cannot be serialised leaves no row. */
  lemma {:induction false} FailedKeepsStream<R>(c: Config<R>, s: State<R>, t: nat, i: nat, skipped: bool)
    requires Frame(c, s) && Enabled(s, Serialise(t)) && c.dumps(s.pc.r) == None && i < 3 && StreamOk(c, s, i, skipped)
    ensures |Do(c, s, Serialise(t)).disks| == 3 && StreamOk(c, Do(c, s, Serialise(t)), i, skipped)
  {
    var (s', handed) := (Do(c, s, Serialise(t)), Handed(s));
    RowsSnoc(c.dumps, handed, s.pc.r);
    assert s.decisions == handed + [s.pc.r];
    assert Rows(c.dumps, handed) + [] == Rows(c.dumps, handed);
    SameStream(c, s, s', i, skipped);
  }

  lemma {:induction false} SerialisedRows<R>(c: Config<R>, s: State<R>)
    requires Frame(c, s) && s.pc.Remembered? && c.dumps(s.pc.r).Some?
    ensures Rows(c.dumps, s.decisions) == Rows(c.dumps, Handed(s)) + [c.dumps(s.pc.r).value + "\n"]
  {
    RowsSnoc(c.dumps, Handed(s), s.pc.r);
    assert s.decisions == Handed(s) + [s.pc.r];
  }

  lemma {:induction false} SerialiseKeepsStream<R>(c: Config<R>, s: State<R>, t: nat, i: nat, skipped: bool)
    requires Frame(c, s) && Enabled(s, Serialise(t)) && i < 3 && StreamOk(c, s, i, skipped)
    ensures |Do(c, s, Serialise(t)).disks| == 3 && StreamOk(c, Do(c, s, Serialise(t)), i, skipped)
  {
    if c.dumps(s.pc.r) == None {
      FailedKeepsStream(c, s, t, i, skipped);
    } else {
      SerialisedRows(c, s);
      SerialisedRow(c, s, t, i);
      RowMore(c, s, Do(c, s, Serialise(t)), i, skipped, c.dumps(s.pc.r).value + "\n");
    }
  }

  /** What one write does to stream `i`: nothing, or the rows go to disk, or they are skipped. */
  lemma {:induction false} EmitMoves<R>(c: Config<R>, s: State<R>, t: nat, i: nat)
    requires Frame(c, s) && Enabled(s, EmitOne(t)) && i < 3 && c.open[i]
    ensures var s' := Do(c, s, EmitOne(t));
            && |s'.disks| == 3 && s'.buffer == [] && s.buffer == [] && Handed(s') == Handed(s)
            && if Skips(c, s, EmitOne(t), i) then InFlight(s, i) == s.pc.rows && InFlight(s', i) == [] && s'.disks[i] == s.disks[i]
               else if s.pc.k == i then InFlight(s, i) == s.pc.rows && InFlight(s', i) == [] && s'.disks[i] == s.disks[i] + Join(s.pc.rows)
               else InFlight(s', i) == InFlight(s, i) && s'.disks[i] == s.disks[i]
  {
  }

  /** Rows that are skipped leave the stream short; rows that are written bring it up to date. */
  lemma {:induction false} EmitKeepsStream<R>(c: Config<R>, s: State<R>, t: nat, i: nat, skipped: bool)
    requires Frame(c, s) && Enabled(s, EmitOne(t)) && i < 3 && c.open[i] && StreamOk(c, s, i, skipped)
    ensures |Do(c, s, EmitOne(t)).disks| == 3
    ensures StreamOk(c, Do(c, s, EmitOne(t)), i, skipped || Skips(c, s, EmitOne(t), i))
  {
    EmitMoves(c, s, t, i);
    var (s', rows) := (Do(c, s, EmitOne(t)), s.pc.rows);
    assert InFlight(s, i) + [] == InFlight(s, i) && InFlight(s', i) + [] == InFlight(s', i);
    if Skips(c, s, EmitOne(t), i) {
      SkippedIsShort(s.disks[i], rows, Rows(c.dumps, Handed(s)), skipped);
    } else if s.pc.k == i {
      WrittenIsOk(s.disks[i], rows, Rows(c.dumps, Handed(s)), skipped);
    } else {
      SameStream(c, s, s', i, skipped);
    }
  }

  lemma {:induction false} SkippedIsShort(disk: string, pending: seq<string>, rows: seq<string>, skipped: bool)
    requires pending != [] && NoneEmpty(pending) && if skipped then Short(disk, pending, rows) else Behind(disk, pending, rows)
    ensures Short(disk, [], rows)
  {
    LongerJoin([], pending);
    if !skipped { BehindNothing(disk, pending, rows); }
  }

  lemma {:induction false} WrittenIsOk(disk: string, pending: seq<string>, rows: seq<string>, skipped: bool)
    requires if skipped then Short(disk, pending, rows) else Behind(disk, pending, rows)
    ensures if skipped then Short(disk + Join(pending), [], rows) else Behind(disk + Join(pending), [], rows)
  {
    if !skipped { BehindNothing(disk, pending, rows); }
  }

  /** Every other step leaves what is on disk, pending and handed on as it was. */
  lemma {:induction false} OtherMoves<R>(c: Config<R>, s: State<R>, a: Step<R>, i: nat)
    requires Frame(c, s) && Enabled(s, a) && i < 3 && !a.Serialise? && !a.EmitOne?
    ensures var s' := Do(c, s, a);
            s'.disks == s.disks && Handed(s') == Handed(s) && InFlight(s', i) + s'.buffer == InFlight(s, i) + s.buffer
  {
    if a.Remember? {
      assert (s.decisions + [s.pc.r])[..|s.decisions|] == s.decisions;
    }
  }

  lemma {:induction false} StepKeepsStream<R>(c: Config<R>, s: State<R>, a: Step<R>, i: nat, skipped: bool)
    requires Frame(c, s) && Enabled(s, a) && i < 3 && c.open[i] && StreamOk(c, s, i, skipped)
    ensures |Do(c, s, a).disks| == 3 && StreamOk(c, Do(c, s, a), i, skipped || Skips(c, s, a, i))
  {
    var s' := Do(c, s, a);
    match a
    case Serialise(t) => SerialiseKeepsStream(c, s, t, i, skipped);
    case EmitOne(t) => EmitKeepsStream(c, s, t, i, skipped);
    case _ =>
      OtherMoves(c, s, a, i);
      SameStream(c, s, s', i, skipped);
  }

  /* ---------------------------------------------------------------- whole runs */

  lemma {:induction false} RunKeepsFrame<R>(c: Config<R>, states: seq<State<R>>, steps: seq<Step<R>>, n: nat)
    requires Run(c, states, steps) && n < |states|
    ensures Frame(c, states[n])
    decreases n
  {
    if n > 0 {
      RunKeepsFrame(c, states, steps, n - 1);
      StepKeepsFrame(c, states[n - 1], steps[n - 1]);
    }
  }

  /** Stream `i` has missed rows before state `n`. */
  predicate Skipped<R>(c: Config<R>, states: seq<State<R>>, steps: seq<Step<R>>, n: nat, i: nat)
    requires c.Valid() && n <= |steps| && n < |states|
  {
    exists j: nat :: j < n && Skips(c, states[j], steps[j], i)
  }

  lemma {:induction false} RunKeepsStream<R>(c: Config<R>, states: seq<State<R>>, steps: seq<Step<R>>, n: nat, i: nat)
    requires Run(c, states, steps) && n < |states| && i < 3 && c.open[i]
    ensures Frame(c, states[n]) && StreamOk(c, states[n], i, Skipped(c, states, steps, n, i))
    decreases n
  {
    RunKeepsFrame(c, states, steps, n);
    if n > 0 {
      RunKeepsStream(c, states, steps, n - 1, i);
      StepKeepsStream(c, states[n - 1], steps[n - 1], i, Skipped(c, states, steps, n - 1, i));
      assert Skipped(c, states, steps, n, i) <==> Skipped(c, states, steps, n - 1, i) || Skips(c, states[n - 1], steps[n - 1], i);
    } else {
      var empty: seq<string> := [];
      assert empty + empty == empty;
    }
  }

  /** Stages never go back. */
  lemma {:induction false} StageGrows<R>(c: Config<R>, states: seq<State<R>>, steps: seq<Step<R>>, m: nat, n: nat)
    requires Run(c, states, steps) && m <= n < |states|
    ensures states[m].stage <= states[n].stage && (states[m].raised ==> states[n].raised)
    decreases n
  {
    if m < n {
      StageGrows(c, states, steps, m, n - 1);
      assert states[n] == Do(c, states[n - 1], steps[n - 1]);
    }
  }

  /** A stream whose handle is still open has missed nothing unless a write has raised; nor has any stream
      before the first handle is closed. */
  lemma {:induction false} OpenIsNotSkipped<R>(c: Config<R>, states: seq<State<R>>, steps: seq<Step<R>>, n: nat, i: nat)
    requires Run(c, states, steps) && n < |states| && i < 3 && c.open[i]
    ensures (i >= states[n].Closed() && !states[n].raised) || states[n].stage == 0 ==> !Skipped(c, states, steps, n, i)
  {
    if (i >= states[n].Closed() && !states[n].raised) || states[n].stage == 0 {
      forall j: nat | j < n ensures !Skips(c, states[j], steps[j], i) {
        RunKeepsFrame(c, states, steps, j);
        StageGrows(c, states, steps, j, n);
        StageGrows(c, states, steps, j + 1, n);
        assert states[j + 1] == Do(c, states[j], steps[j]);
      }
    }
  }

  /** Whenever the lock is free the bytes of each stream that has missed nothing, followed by the buffered rows,
      are the rows of the decisions in order, however the threads were interleaved. */
  lemma {:induction false} AtRestStreamsMatch<R>(c: Config<R>, states: seq<State<R>>, steps: seq<Step<R>>, n: nat, i: nat)
    requires Run(c, states, steps) && n < |states| && states[n].holder == None
    requires i < 3 && c.open[i] && !Skipped(c, states, steps, n, i)
    ensures var s := states[n]; |s.disks| == 3 && s.disks[i] + Join(s.buffer) == Join(Rows(c.dumps, s.decisions))
    ensures |states[n].buffer| < c.bufferRows
  {
    RunKeepsStream(c, states, steps, n, i);
    var s := states[n];
    assert [] + s.buffer == s.buffer;
    BehindNothing(s.disks[i], s.buffer, Rows(c.dumps, s.decisions));
  }

  /** A crash after any step leaves each such stream with all the rows but a suffix of at most `bufferRows` of
      them; of at most one in the unbuffered mode. */
  lemma {:induction false} CrashLosesBoundedSuffix<R>(c: Config<R>, states: seq<State<R>>, steps: seq<Step<R>>, n: nat, i: nat) returns (kept: nat)
    requires Run(c, states, steps) && n < |states|
    requires i < 3 && c.open[i] && !Skipped(c, states, steps, n, i)
    ensures var (s, rows) := (states[n], Rows(c.dumps, states[n].decisions));
            && |s.disks| == 3
            && kept <= |rows| <= kept + c.Limit()
            && s.disks[i] == Join(rows[..kept])
  {
    RunKeepsStream(c, states, steps, n, i);
    kept := SuffixLost(c, states[n], i);
  }

  lemma {:induction false} SuffixLost<R>(c: Config<R>, s: State<R>, i: nat) returns (kept: nat)
    requires Frame(c, s) && i < 3 && StreamOk(c, s, i, false)
    ensures var rows := Rows(c.dumps, s.decisions);
            kept <= |rows| <= kept + c.Limit() && s.disks[i] == Join(rows[..kept])
    ensures kept + |InFlight(s, i) + s.buffer| == |Rows(c.dumps, Handed(s))|
  {
    var (handed, pending) := (Rows(c.dumps, Handed(s)), InFlight(s, i) + s.buffer);
    assert Behind(s.disks[i], pending, handed);
    PendingBound(c, s, i);
    RowsHanded(c, s);
    kept := |handed| - |pending|;
    assert Rows(c.dumps, s.decisions)[..kept] == handed[..kept];
  }

  /** At most the row of the newest decision has not been handed on. */
  lemma {:induction false} RowsHanded<R>(c: Config<R>, s: State<R>)
    requires Frame(c, s)
    ensures var (handed, rows) := (Rows(c.dumps, Handed(s)), Rows(c.dumps, s.decisions));
            handed <= rows && |rows| <= |handed| + if s.pc.Remembered? then 1 else 0
  {
    if s.pc.Remembered? {
      RowsSnoc(c.dumps, Handed(s), s.pc.r);
      assert s.decisions == Handed(s) + [s.pc.r];
    }
  }

  lemma {:induction false} PendingBound<R>(c: Config<R>, s: State<R>, i: nat)
    requires Frame(c, s)
    ensures |InFlight(s, i) + s.buffer| + (if s.pc.Remembered? then 1 else 0) <= c.Limit()
  {
    if s.pc.Emitting? && i >= s.pc.k {
      assert s.pc.rows + [] == s.pc.rows;
    } else {
      assert [] + s.buffer == s.buffer;
    }
  }

  /* ---------------------------------------------------------------- closing while others log */

  lemma {:induction false} RowsGrow<R>(dumps: Dumps<R>, a: seq<R>, b: seq<R>)
    requires a <= b
    ensures Rows(dumps, a) <= Rows(dumps, b)
    decreases |b|
  {
    if a != b {
      RowsGrow(dumps, a, b[..|b| - 1]);
    }
  }

  /** A disk as it is in `s` holds all of `rows`, which extend those handed on in `s`, exactly if the stream has
      missed nothing, nothing is pending for it, and there are no further rows. */
  lemma {:induction false} CompleteIff(disk: string, pending: seq<string>, handed: seq<string>, rows: seq<string>, skipped: bool)
    requires if skipped then Short(disk, pending, handed) else Behind(disk, pending, handed)
    requires handed <= rows && NoneEmpty(rows) && NoneEmpty(pending)
    ensures disk == Join(rows) <==> !skipped && pending == [] && handed == rows
  {
    var more := rows[|handed|..];
    assert rows == handed + more;
    LongerJoin(handed, more);
    LongerJoin([], pending);
    if !skipped {
      BehindNothing(disk, pending, handed);
      if pending == [] && handed == rows {
        assert disk + Join(pending) == disk;
      }
    }
  }

  /** In any state of any run a stream holds the rows of all decisions if and only if it has never been skipped
      and every row has been handed on and written. */
  lemma {:induction false} StreamCompleteIff<R>(c: Config<R>, states: seq<State<R>>, steps: seq<Step<R>>, n: nat, i: nat)
    requires Run(c, states, steps) && n < |states| && i < 3 && c.open[i]
    ensures var (s, rows) := (states[n], Rows(c.dumps, states[n].decisions));
            && |s.disks| == 3
            && (s.disks[i] == Join(rows) <==>
                !Skipped(c, states, steps, n, i) && InFlight(s, i) + s.buffer == [] && Rows(c.dumps, Handed(s)) == rows)
  {
    RunKeepsStream(c, states, steps, n, i);
    RowsHanded(c, states[n]);
    RowsNoneEmpty(c.dumps, states[n].decisions);
    CompleteIff(states[n].disks[i], InFlight(states[n], i) + states[n].buffer, Rows(c.dumps, Handed(states[n])),
                Rows(c.dumps, states[n].decisions), Skipped(c, states, steps, n, i));
  }

  lemma {:induction false} StepFreezesClosed<R>(c: Config<R>, s: State<R>, a: Step<R>, i: nat)
    requires c.Valid() && Enabled(s, a) && |s.disks| == 3 && i < 3 && i < s.Closed()
    ensures var s' := Do(c, s, a);
            i < s'.Closed() && |s'.disks| == 3 && s'.disks[i] == s.disks[i] && s.decisions <= s'.decisions
  {
  }

  lemma {:induction false} OnlyCloseCloses<R>(c: Config<R>, s: State<R>, a: Step<R>)
    requires c.Valid() && Enabled(s, a) && |s.disks| == 3 && Do(c, s, a).stage != s.stage
    ensures Do(c, s, a) == s.(stage := s.stage + 1)
  {
  }

  /** What is closed stays as it is, and decisions are never forgotten. */
  lemma {:induction false} ClosedIsFrozen<R>(c: Config<R>, states: seq<State<R>>, steps: seq<Step<R>>, m: nat, n: nat, i: nat)
    requires Run(c, states, steps) && m <= n < |states| && i < 3 && i < states[m].Closed()
    ensures i < states[n].Closed() && |states[n].disks| == |states[m].disks| == 3 && states[n].disks[i] == states[m].disks[i]
    ensures states[m].decisions <= states[n].decisions
    decreases n
  {
    if m < n {
      ClosedIsFrozen(c, states, steps, m, n - 1, i);
      StepFreezesClosed(c, states[n - 1], steps[n - 1], i);
    } else {
      RunKeepsFrame(c, states, steps, n);
    }
  }

  /** Step `m` closes the handle of stream `i`. */
  predicate ClosesAt<R>(states: seq<State<R>>, m: nat, i: nat) {
    m + 1 < |states| && states[m].Closed() <= i < states[m + 1].Closed()
  }

  /** From then on the stream stays as it was in state `m`. */
  lemma {:induction false} FrozenFrom<R>(c: Config<R>, states: seq<State<R>>, steps: seq<Step<R>>, m: nat, n: nat, i: nat)
    requires Run(c, states, steps) && m < n < |states| && i < 3 && ClosesAt(states, m, i)
    ensures |states[n].disks| == |states[m].disks| == 3 && states[n].disks[i] == states[m].disks[i]
    ensures Rows(c.dumps, states[m].decisions) <= Rows(c.dumps, states[n].decisions)
  {
    RunKeepsFrame(c, states, steps, m);
    OnlyCloseCloses(c, states[m], steps[m]);
    ClosedIsFrozen(c, states, steps, m + 1, n, i);
    RowsGrow(c.dumps, states[m].decisions, states[n].decisions);
  }

  /** A stream that has missed nothing when its handle is closed keeps for good the rows of all decisions up to
      then, less those still in the buffer or on their way to it; every later row is lost on it. */
  lemma {:induction false} CloseKeepsPrefix<R>(c: Config<R>, states: seq<State<R>>, steps: seq<Step<R>>, m: nat, n: nat, i: nat) returns (kept: nat)
    requires Run(c, states, steps) && m < n < |states| && i < 3 && c.open[i]
    requires ClosesAt(states, m, i) && !Skipped(c, states, steps, m, i)
    ensures var (rows, all) := (Rows(c.dumps, states[m].decisions), Rows(c.dumps, states[n].decisions));
            && kept <= |rows| <= kept + c.Limit() && rows <= all
            && |states[n].disks| == 3 && states[n].disks[i] == Join(all[..kept])
            && kept + |InFlight(states[m], i) + states[m].buffer| == |Rows(c.dumps, Handed(states[m]))|
  {
    RunKeepsStream(c, states, steps, m, i);
    FrozenFrom(c, states, steps, m, n, i);
    kept := SuffixLost(c, states[m], i);
    assert Rows(c.dumps, states[n].decisions)[..kept] == Rows(c.dumps, states[m].decisions)[..kept];
  }

  /** Closing loses nothing on a stream if and only if, when its handle is closed, it has missed no rows and none
      are pending, and nothing that can be serialised is logged that had not been handed on by then. */
  lemma {:induction false} CloseLosesNothingIff<R>(c: Config<R>, states: seq<State<R>>, steps: seq<Step<R>>, m: nat, n: nat, i: nat)
    requires Run(c, states, steps) && m < n < |states| && i < 3 && c.open[i] && ClosesAt(states, m, i)
    ensures var (s, all) := (states[m], Rows(c.dumps, states[n].decisions));
            && |states[n].disks| == 3
            && (states[n].disks[i] == Join(all) <==>
                !Skipped(c, states, steps, m, i) && InFlight(s, i) + s.buffer == [] && Rows(c.dumps, Handed(s)) == all)
  {
    RunKeepsStream(c, states, steps, m, i);
    FrozenFrom(c, states, steps, m, n, i);
    RowsHanded(c, states[m]);
    RowsNoneEmpty(c.dumps, states[n].decisions);
    CompleteIff(states[m].disks[i], InFlight(states[m], i) + states[m].buffer, Rows(c.dumps, Handed(states[m])),
                Rows(c.dumps, states[n].decisions), Skipped(c, states, steps, m, i));
  }

  /** For the caller of `close`: if the lock is free and the buffer empty when the first handle is closed, as after
      the flush of the close itself, all three streams end up complete if and only if nothing that can be
      serialised is logged from then on. */
  lemma {:induction false} CloseLosesNothingIffQuiet<R>(c: Config<R>, states: seq<State<R>>, steps: seq<Step<R>>, m: nat, n: nat)
    requires Run(c, states, steps) && m < n < |states| && c.open[0]
    requires states[m].stage == 0 && ClosesAt(states, m, 0) && states[m].holder == None && states[m].buffer == []
    ensures |states[n].disks| == 3
    ensures (forall i | 0 <= i < 3 && c.open[i] :: states[n].disks[i] == Join(Rows(c.dumps, states[n].decisions))) <==>
            Rows(c.dumps, states[n].decisions) == Rows(c.dumps, states[m].decisions)
  {
    var (rows, all) := (Rows(c.dumps, states[m].decisions), Rows(c.dumps, states[n].decisions));
    RunKeepsFrame(c, states, steps, m);
    OpenIsNotSkipped(c, states, steps, m, 0);
    assert InFlight(states[m], 0) + [] == [];
    CloseLosesNothingIff(c, states, steps, m, n, 0);
    if all == rows {
      forall i | 0 <= i < 3 && c.open[i] ensures states[n].disks[i] == Join(all) {
        QuietStaysComplete(c, states, steps, m, n, i);
      }
    }
  }

  /** While no row is added a complete stream stays complete. */
  lemma {:induction false} QuietStaysComplete<R>(c: Config<R>, states: seq<State<R>>, steps: seq<Step<R>>, m: nat, n: nat, i: nat)
    requires Run(c, states, steps) && m <= n < |states| && i < 3 && c.open[i]
    requires states[m].stage == 0 && states[m].holder == None && states[m].buffer == []
    requires Rows(c.dumps, states[n].decisions) == Rows(c.dumps, states[m].decisions)
    ensures |states[n].disks| == 3 && states[n].disks[i] == Join(Rows(c.dumps, states[n].decisions))
  {
    RunKeepsFrame(c, states, steps, m);
    forall k: nat | m <= k <= n ensures NoNewRows(c, states, m, k) {
      RowsBetween(c, states, steps, m, k, n);
    }
    NothingToWrite(c, states, steps, m, n);
    OpenIsNotSkipped(c, states, steps, m, i);
    assert InFlight(states[m], i) + [] == [];
    StreamCompleteIff(c, states, steps, m, i);
  }

  lemma {:induction false} DecisionsGrow<R>(c: Config<R>, states: seq<State<R>>, steps: seq<Step<R>>, m: nat, n: nat)
    requires Run(c, states, steps) && m <= n < |states|
    ensures states[m].decisions <= states[n].decisions
    decreases n
  {
    if m < n {
      DecisionsGrow(c, states, steps, m, n - 1);
      assert states[n] == Do(c, states[n - 1], steps[n - 1]);
    }
  }

  lemma {:induction false} RowsBetween<R>(c: Config<R>, states: seq<State<R>>, steps: seq<Step<R>>, m: nat, k: nat, n: nat)
    requires Run(c, states, steps) && m <= k <= n < |states|
    requires Rows(c.dumps, states[n].decisions) == Rows(c.dumps, states[m].decisions)
    ensures Rows(c.dumps, states[k].decisions) == Rows(c.dumps, states[m].decisions)
  {
    DecisionsGrow(c, states, steps, m, k);
    DecisionsGrow(c, states, steps, k, n);
    RowsGrow(c.dumps, states[m].decisions, states[k].decisions);
    RowsGrow(c.dumps, states[k].decisions, states[n].decisions);
  }

  /** Nothing is buffered or being emitted, and the disks are these. */
  predicate Quiet<R>(s: State<R>, disks: seq<string>) {
    s.buffer == [] && !s.pc.Emitting? && s.disks == disks
  }

  ghost predicate NoNewRows<R>(c: Config<R>, states: seq<State<R>>, m: nat, k: nat) {
    m < |states| && k < |states| && Rows(c.dumps, states[k].decisions) == Rows(c.dumps, states[m].decisions)
  }

  /** Without new rows nothing is buffered, emitted or written. */
  lemma {:induction false} NothingToWrite<R>(c: Config<R>, states: seq<State<R>>, steps: seq<Step<R>>, m: nat, n: nat)
    requires Run(c, states, steps) && m <= n < |states|
    requires states[m].holder == None && Quiet(states[m], states[m].disks)
    requires forall k: nat | m <= k <= n :: NoNewRows(c, states, m, k)
    ensures Quiet(states[n], states[m].disks)
    decreases n
  {
    if m < n {
      NothingToWrite(c, states, steps, m, n - 1);
      assert NoNewRows(c, states, m, n - 1) && NoNewRows(c, states, m, n);
      StaysQuiet(c, states, steps, m, n - 1);
    }
  }

  lemma {:induction false} StaysQuiet<R>(c: Config<R>, states: seq<State<R>>, steps: seq<Step<R>>, m: nat, k: nat)
    requires Run(c, states, steps) && m <= k && k + 1 < |states| && states[m].holder == None
    requires NoNewRows(c, states, m, k) && NoNewRows(c, states, m, k + 1) && Quiet(states[k], states[m].disks)
    ensures Quiet(states[k + 1], states[m].disks)
  {
    assert Enabled(states[k], steps[k]) && |states[k].disks| == 3;
    if steps[k].Serialise? {
      NewestHasNoRow(c, states, steps, m, k);
    }
    QuietStep(c, states[k], steps[k]);
  }

  lemma {:induction false} QuietStep<R>(c: Config<R>, s: State<R>, a: Step<R>)
    requires c.Valid() && |s.disks| == 3 && Enabled(s, a) && s.buffer == [] && !s.pc.Emitting?
    requires a.Serialise? ==> c.dumps(s.pc.r) == None
    ensures var s' := Do(c, s, a); s'.buffer == [] && !s'.pc.Emitting? && s'.disks == s.disks
  {
  }

  /** A decision remembered since then has no row. */
  lemma {:induction false} NewestHasNoRow<R>(c: Config<R>, states: seq<State<R>>, steps: seq<Step<R>>, m: nat, n: nat)
    requires Run(c, states, steps) && m <= n < |states| && states[m].holder == None && states[n].pc.Remembered?
    requires Rows(c.dumps, states[n].decisions) == Rows(c.dumps, states[m].decisions)
    ensures c.dumps(states[n].pc.r) == None
  {
    RunKeepsFrame(c, states, steps, n);
    RememberedSince(c, states, steps, m, n);
    var s := states[n];
    var front := s.decisions[..|s.decisions| - 1];
    RowsGrow(c.dumps, states[m].decisions, front);
    RowsSnoc(c.dumps, front, s.pc.r);
    assert s.decisions == front + [s.pc.r];
  }

  /** If the lock was free at `m`, a decision being handed on at `n` was remembered after `m`. */
  lemma {:induction false} RememberedSince<R>(c: Config<R>, states: seq<State<R>>, steps: seq<Step<R>>, m: nat, n: nat)
    requires Run(c, states, steps) && m <= n < |states| && states[m].holder == None && states[n].pc.Remembered?
    ensures states[n].decisions != [] && states[m].decisions <= states[n].decisions[..|states[n].decisions| - 1]
    decreases n
  {
    RunKeepsFrame(c, states, steps, m);
    RunKeepsFrame(c, states, steps, n);
    assert m < n;
    var (s, a) := (states[n - 1], steps[n - 1]);
    assert states[n] == Do(c, s, a);
    if a.Remember? {
      DecisionsGrow(c, states, steps, m, n - 1);
      assert states[n].decisions[..|s.decisions|] == s.decisions;
    } else {
      RememberedSince(c, states, steps, m, n - 1);
    }
  }

  const direct: Config<string> := Config((r: string) => Some(r), false, 50, [true, true, true])

  /** A run one step longer. */
  lemma {:induction false} Extend<R>(c: Config<R>, states: seq<State<R>>, steps: seq<Step<R>>, a: Step<R>) returns (longer: seq<State<R>>, more: seq<Step<R>>)
    requires Run(c, states, steps) && |states[|steps|].disks| == 3 && Enabled(states[|steps|], a)
    ensures Run(c, longer, more) && |more| == |steps| + 1 && longer[|more|] == Do(c, states[|steps|], a)
  {
    longer, more := states + [Do(c, states[|steps|], a)], steps + [a];
    forall i | 0 <= i < |more|
      ensures |longer[i].disks| == 3 && Enabled(longer[i], more[i]) && longer[i + 1] == Do(c, longer[i], more[i])
    {
      assert longer[i] == states[i];
      if i < |steps| {
        assert more[i] == steps[i] && longer[i + 1] == states[i + 1];
      }
    }
  }

  /** Why a raise must be excluded: a handle closed under a write makes `log_decision` raise and skip the other
      streams, which later rows still reach.  Here the second stream misses its first row and has its second. */
  lemma {:induction false} RaiseLeavesHole() returns (states: seq<State<string>>, steps: seq<Step<string>>)
    ensures Run(direct, states, steps)
    ensures var last := states[|steps|];
            last.raised && last.decisions == ["a", "b"] && |last.disks| == 3 && last.disks[1] == "b\n"
  {
    states, steps := RaisedRun();
    assert "b" + "\n" == "b\n" && ["a"] + ["b"] == ["a", "b"];
    states, steps := Extend(direct, states, steps, TakeToLog(1, "b"));
    states, steps := Extend(direct, states, steps, Remember(1));
    states, steps := Extend(direct, states, steps, Serialise(1));
    states, steps := Extend(direct, states, steps, EmitOne(1));
    assert states[|steps|] == State(["a", "b"], [], ["", "", ""], Some(1), Emitting(["b\n"], 1, 1), 2, true);
    JoinSnoc([], "b\n");
    assert [] + ["b\n"] == ["b\n"] && "" + "b\n" == "b\n";
    states, steps := Extend(direct, states, steps, EmitOne(1));
  }

  /** Its first half: the first handle is closed between two effects of logging "a". */
  lemma {:induction false} RaisedRun() returns (states: seq<State<string>>, steps: seq<Step<string>>)
    ensures Run(direct, states, steps) && states[|steps|] == State(["a"], [], ["", "", ""], None, Idle, 2, true)
  {
    assert "a" + "\n" == "a\n" && [] + ["a"] == ["a"];
    states, steps := [State([], [], ["", "", ""], None, Idle, 0, false)], [];
    states, steps := Extend(direct, states, steps, TakeToLog(1, "a"));
    states, steps := Extend(direct, states, steps, Remember(1));
    states, steps := Extend(direct, states, steps, Serialise(1));
    assert states[|steps|] == State(["a"], [], ["", "", ""], Some(1), Emitting(["a\n"], 0, 0), 0, false);
    states, steps := Extend(direct, states, steps, CloseNext);
    states, steps := Extend(direct, states, steps, EmitOne(1));
    states, steps := Extend(direct, states, steps, CloseNext);
    states, steps := Extend(direct, states, steps, Release(1));
  }
}
