/** lib/hash_chain.py, `append`, as interleaved steps of any number of threads and processes that share
    log objects or not, with arbitrarily stale caches, timeouts, failures and crashes. */
module ChainProtocol {
  import opened Hashing
  import opened HashChain

  datatype Pc<E> =
    | Idle
    | Trying(event: E, attempts: nat)
    | Locked(event: E)
    | Loaded(event: E)
    | Written(rec: ChainedEvent<E>)
    | Updated(rec: ChainedEvent<E>)
    | Crashed
  {
    predicate Holding() {
      Locked? || Loaded? || Written? || Updated?
    }
  }

  datatype Thread<E> = Thread(instance: nat, pc: Pc<E>)

  /** `sent` (the events as their writers held them) and `acks` (the records `append` returned) are
      history; the program state is the rest.  `closed` are the log objects whose `_closed` is set. */
  datatype State<E> = State(
    log: seq<ChainedEvent<E>>, holder: Option<nat>, caches: map<nat, Cache>, threads: map<nat, Thread<E>>,
    sent: seq<E>, acks: seq<ChainedEvent<E>>, closed: set<nat>)
  {
    predicate At(t: nat) {
      t in threads && threads[t].instance in caches
    }

    function Go(t: nat, pc: Pc<E>): State<E>
      requires At(t)
    {
      this.(threads := threads[t := threads[t].(pc := pc)])
    }

    function CacheOf(t: nat): Cache
      requires At(t)
    {
      caches[threads[t].instance]
    }

    function SetCache(t: nat, c: Cache): State<E>
      requires At(t)
    {
      this.(caches := caches[threads[t].instance := c])
    }
  }

  datatype Step<E> =
    | Open(i: nat)
    | Spawn(t: nat, i: nat)
    | Start(t: nat, event: E)
    | TryLock(t: nat)
    | TimeOut(t: nat)
    | Reload(t: nat)
    | Write(t: nat, now: string)
    | Update(t: nat)
    | Unlock(t: nat)
    | Fail(t: nat)
    | Crash(t: nat)
    | Close(i: nat)

  predicate Enabled<E>(s: State<E>, a: Step<E>) {
    match a
    case Open(i) => i !in s.caches
    case Spawn(t, i) => t !in s.threads && i in s.caches
    case Start(t, _) => s.At(t) && s.threads[t].pc.Idle? && s.threads[t].instance !in s.closed
    case TryLock(t) => s.At(t) && s.threads[t].pc.Trying?
    case TimeOut(t) => s.At(t) && s.threads[t].pc.Trying? && s.threads[t].pc.attempts > 0
    case Reload(t) => s.At(t) && s.threads[t].pc.Locked?
    case Write(t, _) => s.At(t) && s.threads[t].pc.Loaded?
    case Update(t) => s.At(t) && s.threads[t].pc.Written?
    case Unlock(t) => s.At(t) && s.threads[t].pc.Updated?
    case Fail(t) => s.At(t) && s.threads[t].pc.Holding()
    case Crash(t) => s.At(t) && !s.threads[t].pc.Crashed?
    case Close(i) => i in s.caches
  }

  function Do<E(==, !new)>(h: string -> string, c: Codec<E>, s: State<E>, a: Step<E>): State<E>
    requires Enabled(s, a)
  {
    match a
    case Open(i) => s.(caches := s.caches[i := LoadTail(s.log, Cache(0, GENESIS))])
    case Spawn(t, i) => s.(threads := s.threads[t := Thread(i, Idle)])
    case Start(t, e) => s.Go(t, Trying(e, 0))
    case TryLock(t) =>
      var pc := s.threads[t].pc;
      if s.holder == None then s.Go(t, Locked(pc.event)).(holder := Some(t))
      else s.Go(t, Trying(pc.event, pc.attempts + 1))
    case TimeOut(t) => s.Go(t, Idle)
    case Reload(t) => s.SetCache(t, LoadTail(s.log, s.CacheOf(t))).Go(t, Loaded(s.threads[t].pc.event))
    case Write(t, now) =>
      var (e, k) := (s.threads[t].pc.event, s.CacheOf(t));
      var rec := Chain(h, c, k, e, now);
      s.Go(t, Written(rec)).(log := s.log + [Stored(c, rec)], sent := s.sent + [e])
    case Update(t) =>
      var rec := s.threads[t].pc.rec;
      s.SetCache(t, Cache(s.CacheOf(t).nextSeq + 1, rec.eventHash)).Go(t, Updated(rec))
    case Unlock(t) =>
      s.Go(t, Idle).(holder := None, acks := s.acks + [s.threads[t].pc.rec])
    case Fail(t) => s.Go(t, Idle).(holder := None)
    case Crash(t) => s.Go(t, Crashed).(holder := if s.holder == Some(t) then None else s.holder)
    case Close(i) => s.(closed := s.closed + {i})
  }

  /** Nobody is running yet; the file may already hold a chain. */
  ghost predicate Init<E(!new)>(h: string -> string, c: Codec<E>, s: State<E>) {
    && s.(log := [], sent := []) == State([], None, map[], map[], [], [], {})
    && Chained(h, c, s.log, s.sent)
  }

  /** A run: each state follows from the one before by an enabled step. */
  ghost predicate Run<E(!new)>(h: string -> string, c: Codec<E>, states: seq<State<E>>, steps: seq<Step<E>>) {
    && |states| == |steps| + 1
    && Init(h, c, states[0])
    && forall i | 0 <= i < |steps| :: Enabled(states[i], steps[i]) && states[i + 1] == Do(h, c, states[i], steps[i])
  }

  /* ---------------------------------------------------------------- the invariant */

  /** The log is a chain over the events as their writers held them. */
  ghost predicate Chained<E(!new)>(h: string -> string, c: Codec<E>, log: seq<ChainedEvent<E>>, sent: seq<E>) {
    && |log| == |sent|
    && forall i | 0 <= i < |log| ::
         log[i] == Stored(c, ChainedEvent(i, Head(log[..i]), h(HashedText(c, Head(log[..i]), sent[i])), log[i].timestamp, sent[i]))
  }

  /** Where a thread inside the critical section stands. */
  ghost predicate InSection<E(!new)>(c: Codec<E>, s: State<E>, t: nat)
    requires s.At(t)
  {
    match s.threads[t].pc
    case Loaded(_) => s.CacheOf(t) == Cache(|s.log|, Head(s.log))
    case Written(rec) =>
      && s.log != [] && s.log[|s.log| - 1] == Stored(c, rec) && rec.seqNo == |s.log| - 1
      && s.CacheOf(t) == Cache(|s.log| - 1, rec.prevHash)
      && forall a | a in s.acks :: a.seqNo < |s.log| - 1
    case Updated(rec) =>
      && s.log != [] && s.log[|s.log| - 1] == Stored(c, rec) && rec.seqNo == |s.log| - 1
      && s.CacheOf(t) == Cache(|s.log|, Head(s.log))
      && forall a | a in s.acks :: a.seqNo < |s.log| - 1
    case _ => true
  }

  /** Reloading under the lock is what makes a stale cache harmless. */
  lemma {:induction false} ReloadFindsTail<E(!new)>(h: string -> string, c: Codec<E>, s: State<E>, t: nat)
    requires Inv(h, c, s) && t in s.threads
    ensures LoadTail(s.log, s.CacheOf(t)) == Cache(|s.log|, Head(s.log))
  {
    if s.log != [] {
      assert s.log[|s.log| - 1].seqNo == |s.log| - 1;
    }
  }

  lemma {:induction false} WriteExtendsChain<E(!new)>(h: string -> string, c: Codec<E>, log: seq<ChainedEvent<E>>, sent: seq<E>, e: E, now: string)
    requires Chained(h, c, log, sent)
    ensures Chained(h, c, log + [Stored(c, ChainedEvent(|log|, Head(log), h(HashedText(c, Head(log), e)), now, e))], sent + [e])
  {
    var longer := log + [Stored(c, ChainedEvent(|log|, Head(log), h(HashedText(c, Head(log), e)), now, e))];
    forall i | 0 <= i < |longer|
      ensures longer[..i] == log[..i]
    {}
    assert log[..|log|] == log;
  }

  /** The part of the invariant that only steps of the lock holder can touch. */
  ghost predicate LogInv<E(!new)>(h: string -> string, c: Codec<E>, s: State<E>) {
    Chained(h, c, s.log, s.sent) && Acknowledged(c, s.log, s.acks)
  }

  /** What was returned is in the log at its number, and the numbers returned ascend. */
  ghost predicate Acknowledged<E(!new)>(c: Codec<E>, log: seq<ChainedEvent<E>>, acks: seq<ChainedEvent<E>>) {
    && (forall k | 0 <= k < |acks| :: 0 <= acks[k].seqNo < |log| && log[acks[k].seqNo] == Stored(c, acks[k]))
    && (forall j, k | 0 <= j < k < |acks| :: acks[j].seqNo < acks[k].seqNo)
  }

  lemma {:induction false} AcknowledgedSnoc<E(!new)>(c: Codec<E>, log: seq<ChainedEvent<E>>, acks: seq<ChainedEvent<E>>, rec: ChainedEvent<E>)
    requires Acknowledged(c, log, acks) && log != [] && log[|log| - 1] == Stored(c, rec) && rec.seqNo == |log| - 1
    requires forall a | a in acks :: a.seqNo < |log| - 1
    ensures Acknowledged(c, log, acks + [rec])
  {
    assert forall k | 0 <= k < |acks| :: acks[k] in acks;
  }

  ghost predicate ThreadOk<E(!new)>(c: Codec<E>, s: State<E>, t: nat) {
    s.At(t) && (s.threads[t].pc.Holding() <==> s.holder == Some(t)) && InSection(c, s, t)
  }

  ghost predicate ThreadsInv<E(!new)>(c: Codec<E>, s: State<E>) {
    && (s.log == [] ==> forall i | i in s.caches :: s.caches[i] == Cache(0, GENESIS))
    && (forall t | t in s.threads :: ThreadOk(c, s, t))
    && (s.holder.Some? ==> s.holder.value in s.threads)
  }

  ghost predicate Inv<E(!new)>(h: string -> string, c: Codec<E>, s: State<E>) {
    LogInv(h, c, s) && ThreadsInv(c, s)
  }

  lemma {:induction false} OpenKeepsThreads<E(!new)>(h: string -> string, c: Codec<E>, s: State<E>, a: Step<E>)
    requires Inv(h, c, s) && Enabled(s, a) && (a.Open? || a.Spawn? || a.Close?)
    ensures ThreadsInv(c, Do(h, c, s, a))
  {
    var s' := Do(h, c, s, a);
    forall u | u in s'.threads ensures ThreadOk(c, s', u) {
      assert u in s.threads ==> ThreadOk(c, s, u);
    }
  }

  /** A thread that has not moved stays where it was while log, acknowledgements and caches stay. */
  lemma {:induction false} UnmovedThread<E(!new)>(c: Codec<E>, s: State<E>, s': State<E>, u: nat)
    requires ThreadOk(c, s, u) && u in s'.threads && s'.threads[u] == s.threads[u]
    requires s'.log == s.log && s'.acks == s.acks && s'.caches == s.caches
    requires s'.holder == Some(u) <==> s.holder == Some(u)
    ensures ThreadOk(c, s', u)
  {
  }

  /** A thread that is not inside does not depend on log, acknowledgements or caches. */
  lemma {:induction false} OutsiderUnmoved<E(!new)>(c: Codec<E>, s: State<E>, s': State<E>, u: nat)
    requires ThreadOk(c, s, u) && s.holder != Some(u) && s'.holder != Some(u)
    requires u in s'.threads && s'.threads[u] == s.threads[u] && s.caches.Keys <= s'.caches.Keys
    ensures ThreadOk(c, s', u)
  {
  }

  /** A step of a thread that waits for the lock changes no cache and no log. */
  lemma {:induction false} WaitingStepKeepsThreads<E(!new)>(h: string -> string, c: Codec<E>, s: State<E>, a: Step<E>)
    requires Inv(h, c, s) && Enabled(s, a)
    requires a.Start? || a.TryLock? || a.TimeOut?
    ensures ThreadsInv(c, Do(h, c, s, a))
  {
    var s' := Do(h, c, s, a);
    assert ThreadOk(c, s, a.t);
    forall u | u in s'.threads ensures ThreadOk(c, s', u) {
      assert ThreadOk(c, s, u);
      if u != a.t { UnmovedThread(c, s, s', u); }
    }
  }

  /** Nor does a failure or a crash; it frees the lock if the thread had it. */
  lemma {:induction false} LeavingStepKeepsThreads<E(!new)>(h: string -> string, c: Codec<E>, s: State<E>, a: Step<E>)
    requires Inv(h, c, s) && Enabled(s, a)
    requires a.Fail? || a.Crash?
    ensures ThreadsInv(c, Do(h, c, s, a))
  {
    var s' := Do(h, c, s, a);
    assert ThreadOk(c, s, a.t);
    forall u | u in s'.threads ensures ThreadOk(c, s', u) {
      assert ThreadOk(c, s, u);
      if u != a.t { UnmovedThread(c, s, s', u); }
    }
  }

  lemma {:induction false} ReloadKeepsThreads<E(!new)>(h: string -> string, c: Codec<E>, s: State<E>, t: nat)
    requires Inv(h, c, s) && Enabled(s, Reload(t))
    ensures ThreadsInv(c, Do(h, c, s, Reload(t)))
  {
    ReloadFindsTail(h, c, s, t);
    var s' := Do(h, c, s, Reload(t));
    assert ThreadOk(c, s, t);
    forall u | u in s'.threads ensures ThreadOk(c, s', u) {
      assert ThreadOk(c, s, u);
      if u != t { OutsiderUnmoved(c, s, s', u); }
    }
  }

  lemma {:induction false} SectionStepKeepsThreads<E(!new)>(h: string -> string, c: Codec<E>, s: State<E>, a: Step<E>)
    requires Inv(h, c, s) && Enabled(s, a)
    requires a.Write? || a.Update? || a.Unlock?
    ensures ThreadsInv(c, Do(h, c, s, a))
  {
    var s' := Do(h, c, s, a);
    assert ThreadOk(c, s, a.t);
    forall u | u in s'.threads ensures ThreadOk(c, s', u) {
      assert ThreadOk(c, s, u);
      if u != a.t { OutsiderUnmoved(c, s, s', u); }
    }
  }

  /** The written record extends the chain; what was acknowledged stays where it is. */
  lemma {:induction false} WriteKeepsLog<E(!new)>(h: string -> string, c: Codec<E>, s: State<E>, t: nat, now: string)
    requires Inv(h, c, s) && Enabled(s, Write(t, now))
    ensures LogInv(h, c, Do(h, c, s, Write(t, now)))
  {
    assert ThreadOk(c, s, t);
    WriteExtendsChain(h, c, s.log, s.sent, s.threads[t].pc.event, now);
  }

  /** The record returned is the last of the log. */
  lemma {:induction false} UnlockKeepsLog<E(!new)>(h: string -> string, c: Codec<E>, s: State<E>, t: nat)
    requires Inv(h, c, s) && Enabled(s, Unlock(t))
    ensures LogInv(h, c, Do(h, c, s, Unlock(t)))
  {
    assert ThreadOk(c, s, t);
    AcknowledgedSnoc(c, s.log, s.acks, s.threads[t].pc.rec);
  }

  lemma {:induction false} OtherStepKeepsLog<E(!new)>(h: string -> string, c: Codec<E>, s: State<E>, a: Step<E>)
    requires LogInv(h, c, s) && Enabled(s, a) && !a.Write? && !a.Unlock?
    ensures LogInv(h, c, Do(h, c, s, a))
  {
    var s' := Do(h, c, s, a);
    assert s'.log == s.log && s'.sent == s.sent && s'.acks == s.acks;
  }

  lemma {:induction false} StepKeepsInv<E(!new)>(h: string -> string, c: Codec<E>, s: State<E>, a: Step<E>)
    requires Inv(h, c, s) && Enabled(s, a)
    ensures Inv(h, c, Do(h, c, s, a))
  {
    match a {
      case Write(t, now) => WriteKeepsLog(h, c, s, t, now);
      case Unlock(t) => UnlockKeepsLog(h, c, s, t);
      case _ => OtherStepKeepsLog(h, c, s, a);
    }
    match a
    case Reload(t) => ReloadKeepsThreads(h, c, s, t);
    case Write(_, _) => SectionStepKeepsThreads(h, c, s, a);
    case Update(_) => SectionStepKeepsThreads(h, c, s, a);
    case Unlock(_) => SectionStepKeepsThreads(h, c, s, a);
    case Open(_) => OpenKeepsThreads(h, c, s, a);
    case Spawn(_, _) => OpenKeepsThreads(h, c, s, a);
    case Close(_) => OpenKeepsThreads(h, c, s, a);
    case Fail(_) => LeavingStepKeepsThreads(h, c, s, a);
    case Crash(_) => LeavingStepKeepsThreads(h, c, s, a);
    case _ => WaitingStepKeepsThreads(h, c, s, a);
  }

  /** Only a write touches the log, and it adds one line at the end. */
  lemma {:induction false} StepAppendsAtMostOne<E(!new)>(h: string -> string, c: Codec<E>, s: State<E>, a: Step<E>)
    requires Enabled(s, a)
    ensures var s' := Do(h, c, s, a);
            if a.Write? then s.log == s'.log[..|s'.log| - 1] else s'.log == s.log && s'.sent == s.sent
  {
  }

  /** A writer that times out has changed nothing but its own program counter. */
  lemma {:induction false} TimeOutChangesNothing<E(!new)>(h: string -> string, c: Codec<E>, s: State<E>, t: nat)
    requires Inv(h, c, s) && Enabled(s, TimeOut(t))
    ensures var s' := Do(h, c, s, TimeOut(t));
            && s'.(threads := s.threads) == s
            && s'.threads.Keys == s.threads.Keys
            && forall u | u in s.threads && u != t :: s'.threads[u] == s.threads[u]
    ensures s.holder != Some(t)
  {
    assert ThreadOk(c, s, t);
  }

  /** Over a run: a thread that times out has been trying ever since it started, and has written nothing since. */
  lemma {:induction false} TimedOutWroteNothing<E(!new)>(h: string -> string, c: Codec<E>, states: seq<State<E>>, steps: seq<Step<E>>, t: nat, i: nat, j: nat)
    requires Run(h, c, states, steps) && i < j < |steps| && steps[j] == TimeOut(t)
    requires forall k | i < k < j :: !(steps[k].Start? && steps[k].t == t)
    requires steps[i].Start? && steps[i].t == t
    ensures forall k | i < k < j :: !(steps[k].Write? && steps[k].t == t)
    ensures forall k | i < k <= j :: t in states[k].threads && states[k].threads[t].pc.Trying?
  {
    assert Enabled(states[j], steps[j]);
    TryingSince(h, c, states, steps, t, i, j);
    forall k | i < k < j ensures !(steps[k].Write? && steps[k].t == t) {
      assert Enabled(states[k], steps[k]) && states[k].threads[t].pc.Trying?;
    }
  }

  /** A thread that is trying, and has not started since, was trying before. */
  lemma {:induction false} TryingSince<E(!new)>(h: string -> string, c: Codec<E>, states: seq<State<E>>, steps: seq<Step<E>>, t: nat, i: nat, j: nat)
    requires Run(h, c, states, steps) && i < j < |states|
    requires forall k | i < k < j :: !(steps[k].Start? && steps[k].t == t)
    requires t in states[j].threads && states[j].threads[t].pc.Trying?
    ensures forall k | i < k <= j :: t in states[k].threads && states[k].threads[t].pc.Trying?
    decreases j
  {
    if i + 1 < j {
      assert Enabled(states[j - 1], steps[j - 1]) && states[j] == Do(h, c, states[j - 1], steps[j - 1]);
      TryingBefore(h, c, states[j - 1], steps[j - 1], t);
      TryingSince(h, c, states, steps, t, i, j - 1);
    }
  }

  lemma {:induction false} TryingBefore<E(!new)>(h: string -> string, c: Codec<E>, s: State<E>, a: Step<E>, t: nat)
    requires Enabled(s, a) && !(a.Start? && a.t == t)
    requires t in Do(h, c, s, a).threads && Do(h, c, s, a).threads[t].pc.Trying?
    ensures t in s.threads && s.threads[t].pc.Trying?
  {
  }

  /* ---------------------------------------------------------------- one append as steps */

  /** The steps of one thread's `append` that finds the lock free. */
  function AppendSteps<E>(t: nat, now: string): seq<Step<E>> {
    [TryLock(t), Reload(t), Write(t, now), Update(t), Unlock(t)]
  }

  /** Each step is enabled in its turn; the states passed through. */
  ghost predicate Leads<E(!new)>(h: string -> string, c: Codec<E>, states: seq<State<E>>, steps: seq<Step<E>>) {
    && |states| == |steps| + 1
    && forall i | 0 <= i < |steps| :: Enabled(states[i], steps[i]) && states[i + 1] == Do(h, c, states[i], steps[i])
  }

  /** Undisturbed, these steps do to the log and the cache exactly what `HashChainedLog.Append` promises, and
      return the same record; nothing is asked of the log or the cache they start from. */
  lemma {:induction false} AppendIsTheseSteps<E(!new)>(h: string -> string, c: Codec<E>, states: seq<State<E>>, t: nat, now: string)
    requires Leads(h, c, states, AppendSteps(t, now))
    requires states[0].At(t) && states[0].threads[t].pc.Trying? && states[0].holder == None
    ensures var (s, s') := (states[0], states[5]);
            var rec := Chain(h, c, LoadTail(s.log, s.CacheOf(t)), s.threads[t].pc.event, now);
            && s'.log == s.log + [Stored(c, rec)]
            && s'.acks == s.acks + [rec] && s'.sent == s.sent + [rec.event]
            && s'.holder == None && s'.At(t) && s'.threads[t].pc.Idle?
            && s'.caches == s.caches[s.threads[t].instance := Cache(rec.seqNo + 1, rec.eventHash)]
            && s'.threads == s.threads[t := s.threads[t].(pc := Idle)] && s'.closed == s.closed
  {
    var steps: seq<Step<E>> := AppendSteps(t, now);
    assert states[1] == Do(h, c, states[0], steps[0]);
    assert states[2] == Do(h, c, states[1], steps[1]);
    assert states[3] == Do(h, c, states[2], steps[2]);
    assert states[4] == Do(h, c, states[3], steps[3]);
    assert states[5] == Do(h, c, states[4], steps[4]);
  }

  /** And they are always possible from there. */
  lemma {:induction false} AppendStepsPossible<E(!new)>(h: string -> string, c: Codec<E>, s: State<E>, t: nat, now: string) returns (states: seq<State<E>>)
    requires s.At(t) && s.threads[t].pc.Trying? && s.holder == None
    ensures Leads(h, c, states, AppendSteps(t, now)) && states[0] == s
  {
    var s1 := Do(h, c, s, TryLock(t));
    var s2 := Do(h, c, s1, Reload(t));
    var s3 := Do(h, c, s2, Write(t, now));
    var s4 := Do(h, c, s3, Update(t));
    states := [s, s1, s2, s3, s4, Do(h, c, s4, Unlock(t))];
  }

  /* ---------------------------------------------------------------- whole runs */

  lemma {:induction false} RunKeepsInv<E(!new)>(h: string -> string, c: Codec<E>, states: seq<State<E>>, steps: seq<Step<E>>, n: nat)
    requires Run(h, c, states, steps) && n < |states|
    ensures Inv(h, c, states[n])
    decreases n
  {
    if n > 0 {
      RunKeepsInv(h, c, states, steps, n - 1);
      StepKeepsInv(h, c, states[n - 1], steps[n - 1]);
    }
  }

  /** Over any stretch of a run the log only grows at its end. */
  lemma {:induction false} RunOnlyAppends<E(!new)>(h: string -> string, c: Codec<E>, states: seq<State<E>>, steps: seq<Step<E>>, m: nat, n: nat)
    requires Run(h, c, states, steps) && m <= n < |states|
    ensures states[m].log <= states[n].log
    decreases n
  {
    if m < n {
      RunOnlyAppends(h, c, states, steps, m, n - 1);
      StepAppendsAtMostOne(h, c, states[n - 1], steps[n - 1]);
    }
  }

  /** Whenever `append` has returned a record, every later log holds it at the returned number, and no
      two returned records share a number. */
  lemma {:induction false} AcknowledgedIsPermanent<E(!new)>(h: string -> string, c: Codec<E>, states: seq<State<E>>, steps: seq<Step<E>>, m: nat, n: nat, j: nat, k: nat)
    requires Run(h, c, states, steps) && m <= n < |states|
    requires j < |states[m].acks| && k < |states[m].acks|
    ensures var (r, log) := (states[m].acks[k], states[n].log);
            0 <= r.seqNo < |log| && log[r.seqNo] == Stored(c, r)
    ensures j != k ==> states[m].acks[j].seqNo != states[m].acks[k].seqNo
  {
    RunKeepsInv(h, c, states, steps, m);
    RunOnlyAppends(h, c, states, steps, m, n);
  }

  ghost function TextsOf<E(!new)>(c: Codec<E>, log: seq<ChainedEvent<E>>, sent: seq<E>): set<string>
    requires |log| == |sent|
  {
    HashedTexts(c, log) + set i | 0 <= i < |log| :: HashedText(c, log[i].prevHash, sent[i])
  }

  lemma {:induction false} ChainedIsWellFormedIffStable<E(!new)>(h: string -> string, c: Codec<E>, log: seq<ChainedEvent<E>>, sent: seq<E>)
    requires Chained(h, c, log, sent)
    ensures (forall e | e in sent :: c.Stable(e)) ==> WellFormed(h, c, log)
    ensures NoCollision(h, TextsOf(c, log, sent)) && WellFormed(h, c, log) ==> forall e | e in sent :: c.Stable(e)
  {
    if forall e | e in sent :: c.Stable(e) {
      forall i: nat | i < |log| ensures LinkedAt(h, c, log, i) {
        assert sent[i] in sent;
      }
    }
    if NoCollision(h, TextsOf(c, log, sent)) && WellFormed(h, c, log) {
      forall i | 0 <= i < |sent| ensures c.Stable(sent[i]) {
        assert LinkedAt(h, c, log, i);
        var (x, y) := (HashedText(c, log[i].prevHash, log[i].event), HashedText(c, log[i].prevHash, sent[i]));
        assert x in TextsOf(c, log, sent) && y in TextsOf(c, log, sent);
        assert c.dumps(log[i].event) == x[|log[i].prevHash|..] && c.dumps(sent[i]) == y[|log[i].prevHash|..];
      }
    }
  }

  /** A file that verifies is such a starting point, with its own events as those sent. */
  lemma {:induction false} VerifiedFileCanStart<E(!new)>(h: string -> string, c: Codec<E>, log: seq<ChainedEvent<E>>)
    requires WellFormed(h, c, log) && AllParsed(c, log)
    ensures Chained(h, c, log, seq(|log|, i requires 0 <= i < |log| => log[i].event))
  {
    forall i: nat | i < |log|
      ensures log[i] == Stored(c, ChainedEvent(i, Head(log[..i]), h(HashedText(c, Head(log[..i]), log[i].event)), log[i].timestamp, log[i].event))
    {
      assert LinkedAt(h, c, log, i);
    }
  }

  /** In every state of every run the log is numbered 0, 1, .., n-1 and linked; and it verifies exactly
      when each event written so far has text that survives the write and the read. */
  lemma {:induction false} EveryReachableLogIsAChain<E(!new)>(h: string -> string, c: Codec<E>, states: seq<State<E>>, steps: seq<Step<E>>, n: nat)
    requires Run(h, c, states, steps) && n < |states|
    ensures var (log, sent) := (states[n].log, states[n].sent);
            && |log| == |sent|
            && (forall i | 0 <= i < |log| :: log[i].seqNo == i && log[i].prevHash == Head(log[..i]) && log[i].event == c.Reload(sent[i]))
            && ((forall e | e in sent :: c.Stable(e)) ==> WellFormed(h, c, log))
            && (NoCollision(h, TextsOf(c, log, sent)) && WellFormed(h, c, log) ==> forall e | e in sent :: c.Stable(e))
  {
    RunKeepsInv(h, c, states, steps, n);
    ChainedIsWellFormedIffStable(h, c, states[n].log, states[n].sent);
  }

  /** Mutual exclusion: at most one thread is between taking and releasing the lock. */
  lemma {:induction false} OneWriterAtATime<E(!new)>(h: string -> string, c: Codec<E>, states: seq<State<E>>, steps: seq<Step<E>>, n: nat, t: nat, u: nat)
    requires Run(h, c, states, steps) && n < |states|
    requires t in states[n].threads && u in states[n].threads
    requires states[n].threads[t].pc.Holding() && states[n].threads[u].pc.Holding()
    ensures t == u
  {
    RunKeepsInv(h, c, states, steps, n);
    assert ThreadOk(c, states[n], t) && ThreadOk(c, states[n], u);
  }

  /* ---------------------------------------------------------------- closing */

  /** The log a close has verified is still the log later on if and only if nobody has written since. */
  lemma {:induction false} VerifiedLogIsFinalIff<E(!new)>(h: string -> string, c: Codec<E>, states: seq<State<E>>, steps: seq<Step<E>>, m: nat, n: nat)
    requires Run(h, c, states, steps) && m <= n < |states|
    ensures states[n].log == states[m].log <==> forall k | m <= k < n :: !steps[k].Write?
    decreases n
  {
    if m < n {
      VerifiedLogIsFinalIff(h, c, states, steps, m, n - 1);
      RunOnlyAppends(h, c, states, steps, m, n - 1);
      assert Enabled(states[n - 1], steps[n - 1]) && states[n] == Do(h, c, states[n - 1], steps[n - 1]);
      StepAppendsAtMostOne(h, c, states[n - 1], steps[n - 1]);
    }
  }

  /** Every log object is closed and no append is between its test for that and its write. */
  ghost predicate Settled<E(!new)>(s: State<E>) {
    && s.caches.Keys <= s.closed
    && forall t | t in s.threads :: !s.threads[t].pc.Trying? && !s.threads[t].pc.Locked? && !s.threads[t].pc.Loaded?
  }

  lemma {:induction false} StepKeepsSettled<E(!new)>(h: string -> string, c: Codec<E>, s: State<E>, a: Step<E>)
    requires Settled(s) && Enabled(s, a) && !a.Open?
    ensures Settled(Do(h, c, s, a)) && !a.Write?
  {
  }

  /** Then the log is final until another log object is opened on the file. */
  lemma {:induction false} SettledLogIsFinal<E(!new)>(h: string -> string, c: Codec<E>, states: seq<State<E>>, steps: seq<Step<E>>, m: nat, n: nat)
    requires Run(h, c, states, steps) && m <= n < |states| && Settled(states[m])
    requires forall k | m <= k < n :: !steps[k].Open?
    ensures states[n].log == states[m].log && Settled(states[n])
    decreases n
  {
    if m < n {
      SettledLogIsFinal(h, c, states, steps, m, n - 1);
      assert Enabled(states[n - 1], steps[n - 1]) && states[n] == Do(h, c, states[n - 1], steps[n - 1]);
      StepKeepsSettled(h, c, states[n - 1], steps[n - 1]);
      StepAppendsAtMostOne(h, c, states[n - 1], steps[n - 1]);
    }
  }

  /** But an append that has passed the test goes through on a log object that has been closed meanwhile, verified
      or not: closing does not take the lock. */
  lemma {:induction false} AppendAfterClose<E(!new)>(h: string -> string, c: Codec<E>, s: State<E>, t: nat, now: string) returns (states: seq<State<E>>)
    requires s.At(t) && s.threads[t].pc.Trying? && s.holder == None && s.threads[t].instance in s.closed
    ensures Leads(h, c, states, AppendSteps(t, now)) && states[0] == s
    ensures |states[5].log| == |s.log| + 1 && s.log <= states[5].log && states[5].closed == s.closed
  {
    states := AppendStepsPossible(h, c, s, t, now);
    AppendIsTheseSteps(h, c, states, t, now);
  }
}
