/** lib/content_store.py, `store` and `store_file`, by several processes storing the same content at the same
    moment.  They share one temporary path, and each opens, writes and renames it in separate calls, any of
    which may be the last before a crash; what is settled is when the blob is whole. */
module StoreRace {
  import opened Hashing

  /** Where one store stands; `i` is the file it has open, which a rename of its path does not change.
      `Crashed(i)` died with that file open and not yet written. */
  datatype Pc = Idle | Missed | Opened(i: nat) | Wrote(i: nat) | Done | Failed | Crashed(at: Option<nat>)

  /** `files` are the files that exist or existed, `temp` and `blob` the ones the two paths lead to. */
  datatype State = State(files: map<nat, Bytes>, temp: Option<nat>, blob: Option<nat>, pcs: map<nat, Pc>)

  datatype Step = Begin(w: nat) | Check(w: nat) | Open(w: nat, i: nat) | Write(w: nat) | Rename(w: nat) | Crash(w: nat)

  predicate Enabled(s: State, a: Step) {
    match a
    case Begin(w) => w !in s.pcs
    case Check(w) => w in s.pcs && s.pcs[w].Idle?
    case Open(w, i) => w in s.pcs && s.pcs[w].Missed? && if s.temp.Some? then i == s.temp.value else i !in s.files
    case Write(w) => w in s.pcs && s.pcs[w].Opened?
    case Rename(w) => w in s.pcs && s.pcs[w].Wrote?
    case Crash(w) => w in s.pcs && !s.pcs[w].Crashed?
  }

  /** Opening for writing truncates what is there; a rename of a path that is gone raises. */
  function Do(content: Bytes, s: State, a: Step): State
    requires Enabled(s, a)
  {
    match a
    case Begin(w) => s.(pcs := s.pcs[w := Idle])
    case Check(w) => s.(pcs := s.pcs[w := if s.blob.Some? then Done else Missed])
    case Open(w, i) => s.(files := s.files[i := []], temp := Some(i), pcs := s.pcs[w := Opened(i)])
    case Write(w) => s.(files := s.files[s.pcs[w].i := content], pcs := s.pcs[w := Wrote(s.pcs[w].i)])
    case Rename(w) =>
      if s.temp == None then s.(pcs := s.pcs[w := Failed])
      else s.(blob := s.temp, temp := None, pcs := s.pcs[w := Done])
    case Crash(w) => s.(pcs := s.pcs[w := Crashed(if s.pcs[w].Opened? then Some(s.pcs[w].i) else None)])
  }

  ghost predicate Run(content: Bytes, states: seq<State>, steps: seq<Step>) {
    && |states| == |steps| + 1 && states[0] == State(map[], None, None, map[])
    && forall k {:trigger steps[k]} | 0 <= k < |steps| :: Enabled(states[k], steps[k]) && states[k + 1] == Do(content, states[k], steps[k])
  }

  /** Some store has file `i` open and not yet written, or died so. */
  ghost predicate HasWriter(s: State, i: nat) {
    exists w :: w in s.pcs && (s.pcs[w] == Opened(i) || s.pcs[w] == Crashed(Some(i)))
  }

  ghost predicate Inv(content: Bytes, s: State) {
    && (forall i | i in s.files :: s.files[i] == content || (s.files[i] == [] && HasWriter(s, i)))
    && (s.temp.Some? ==> s.temp.value in s.files) && (s.blob.Some? ==> s.blob.value in s.files)
    && (forall w | w in s.pcs && s.pcs[w].Opened? :: s.pcs[w].i in s.files)
    && (s.temp.Some? ==> s.blob != s.temp)
  }

  lemma {:induction false} StepKeepsInv(content: Bytes, s: State, a: Step)
    requires Inv(content, s) && Enabled(s, a)
    ensures Inv(content, Do(content, s, a))
  {
    var s' := Do(content, s, a);
    forall i | i in s'.files ensures s'.files[i] == content || (s'.files[i] == [] && HasWriter(s', i)) {
      if i in s.files && s'.files[i] == s.files[i] && s.files[i] != content {
        var w :| w in s.pcs && (s.pcs[w] == Opened(i) || s.pcs[w] == Crashed(Some(i)));
        assert w in s'.pcs && (s'.pcs[w] == Opened(i) || s'.pcs[w] == Crashed(Some(i)));
      } else if a.Open? && i == a.i {
        assert a.w in s'.pcs && s'.pcs[a.w] == Opened(i);
      }
    }
  }

  /** In every state of every run the blob is whole, or it is empty and some store has its file open unwritten, or
      died so.  So once every store has finished, without a crash inside, the blob is whole. */
  lemma {:induction false} BlobWholeOrBeingWritten(content: Bytes, states: seq<State>, steps: seq<Step>, n: nat)
    requires Run(content, states, steps) && n < |states|
    ensures Inv(content, states[n])
    ensures var s := states[n]; s.blob.Some? ==>
              s.blob.value in s.files && (s.files[s.blob.value] == content || (s.files[s.blob.value] == [] && HasWriter(s, s.blob.value)))
    decreases n
  {
    if n > 0 {
      BlobWholeOrBeingWritten(content, states, steps, n - 1);
      assert states[n] == Do(content, states[n - 1], steps[n - 1]);
      StepKeepsInv(content, states[n - 1], steps[n - 1]);
    }
  }

  /* ---------------------------------------------------------------- when nothing goes wrong */

  predicate Holds(s: State, w: nat, i: nat) {
    w in s.pcs && (s.pcs[w] == Opened(i) || s.pcs[w] == Wrote(i))
  }

  /** A store that opens the temporary file meets nobody else's: none, or one left by a crash. */
  ghost predicate Exclusive(s: State, a: Step) {
    a.Open? ==> forall w :: !Holds(s, w, a.i)
  }

  ghost predicate Whole(content: Bytes, s: State) {
    && (s.blob.Some? ==> s.blob.value in s.files && s.files[s.blob.value] == content && s.blob != s.temp)
    && (s.temp.Some? ==> s.temp.value in s.files)
    && (forall w, i: nat | Holds(s, w, i) :: s.temp == Some(i) && (s.pcs[w].Wrote? ==> i in s.files && s.files[i] == content))
    && (forall v, w, i: nat | Holds(s, v, i) && Holds(s, w, i) :: v == w)
  }

  lemma {:induction false} ExclusiveStepKeepsWhole(content: Bytes, s: State, a: Step)
    requires Whole(content, s) && Enabled(s, a) && Exclusive(s, a)
    ensures Whole(content, Do(content, s, a))
  {
    var s' := Do(content, s, a);
    if a.Write? { assert Holds(s, a.w, s.pcs[a.w].i); }
    if a.Rename? { assert Holds(s, a.w, s.pcs[a.w].i); }
    forall w, i: nat | Holds(s', w, i) ensures s'.temp == Some(i) && (s'.pcs[w].Wrote? ==> i in s'.files && s'.files[i] == content) {
      if w != a.w {
        assert Holds(s, w, i);
      }
    }
    forall v, w, i: nat | Holds(s', v, i) && Holds(s', w, i) ensures v == w {
      if v != a.w { assert Holds(s, v, i); }
      if w != a.w { assert Holds(s, w, i); }
    }
  }

  /** As long as no two stores have the temporary file at the same time, the blob is whole in every state, crashes
      included, and no store fails. */
  lemma {:induction false} ExclusiveRunIsWhole(content: Bytes, states: seq<State>, steps: seq<Step>, n: nat)
    requires Run(content, states, steps) && n < |states|
    requires forall k | 0 <= k < n :: Exclusive(states[k], steps[k])
    ensures Whole(content, states[n])
    decreases n
  {
    if n > 0 {
      ExclusiveRunIsWhole(content, states, steps, n - 1);
      assert states[n] == Do(content, states[n - 1], steps[n - 1]) && Exclusive(states[n - 1], steps[n - 1]);
      ExclusiveStepKeepsWhole(content, states[n - 1], steps[n - 1]);
    }
  }

  /* ---------------------------------------------------------------- when it does */

  /** Every store that has begun is over. */
  predicate AtRest(s: State) {
    forall w | w in s.pcs :: s.pcs[w].Done? || s.pcs[w].Failed? || s.pcs[w].Crashed?
  }

  /** Begun since, and not yet looked, or over. */
  ghost predicate OnlyLooking(s: State) {
    s.blob.Some? && forall w | w in s.pcs :: s.pcs[w].Idle? || s.pcs[w].Done? || s.pcs[w].Failed? || s.pcs[w].Crashed?
  }

  /** A blob that is there when all stores are over is never written again: whole or not, every later store takes
      it for stored. */
  lemma {:induction false} BlobIsFinal(content: Bytes, states: seq<State>, steps: seq<Step>, m: nat, n: nat)
    requires Run(content, states, steps) && m <= n < |states| && AtRest(states[m]) && states[m].blob.Some?
    ensures states[n].blob == states[m].blob && states[n].files == states[m].files && OnlyLooking(states[n])
    decreases n
  {
    if m < n {
      BlobIsFinal(content, states, steps, m, n - 1);
      assert Enabled(states[n - 1], steps[n - 1]) && states[n] == Do(content, states[n - 1], steps[n - 1]);
    }
  }

  /** How it comes to be short: the second store truncates the file the first has written, the first renames it,
      and the second dies before it writes.  The first has reported success, and the blob is empty for good. */
  lemma {:induction false} SharedTemporaryLeavesShortBlob(content: Bytes) returns (states: seq<State>)
    ensures Run(content, states, [Begin(0), Begin(1), Check(0), Check(1), Open(0, 7), Write(0), Open(1, 7), Rename(0), Crash(1)])
    ensures var last := states[9];
            && AtRest(last) && last.pcs.Keys == {0, 1} && last.pcs[0] == Done
            && last.blob == Some(7) && 7 in last.files && last.files[7] == []
  {
    var s0 := State(map[], None, None, map[]);
    var s1 := Do(content, s0, Begin(0));
    var s2 := Do(content, s1, Begin(1));
    var s3 := Do(content, s2, Check(0));
    var s4 := Do(content, s3, Check(1));
    var s5 := Do(content, s4, Open(0, 7));
    var s6 := Do(content, s5, Write(0));
    var s7 := Do(content, s6, Open(1, 7));
    var s8 := Do(content, s7, Rename(0));
    states := [s0, s1, s2, s3, s4, s5, s6, s7, s8, Do(content, s8, Crash(1))];
  }
}
