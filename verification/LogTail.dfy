/** gui/shared_state.py: appending to a run's log while pollers tail it.  A poll takes the size of the file
    first and reads to its end later, so appends can fall in between; what is settled is which bytes a poller
    has then received, and when it has received each of them once. */
module LogTail {
  import opened Hashing

  /* ---------------------------------------------------------------- one undisturbed poll */

  /** `tail_log` of a log that does not change meanwhile. */
  function Tail(content: Option<Bytes>, offset: int): (Bytes, int) {
    match content
    case None => ([], offset)
    case Some(bytes) =>
      if offset >= |bytes| then ([], offset)
      else (bytes[if offset < 0 then 0 else offset..], |bytes|)
  }

  /* ---------------------------------------------------------------- polls and appends as steps */

  /** A stretch of the file that a poll has delivered. */
  datatype Piece = Piece(from: nat, to: nat)

  /** `size` is what the poll in progress has found; `got` and `offset` are what the poller has received and
      where it stands; `pieces` and `extra` are history: what was delivered, and how many bytes came with a
      read beyond the size found before it. */
  datatype State = State(log: Option<Bytes>, size: Option<nat>, got: Bytes, offset: nat, pieces: seq<Piece>, extra: nat) {
    function Content(): Bytes {
      if log == None then [] else log.value
    }
  }

  datatype Step = Append(text: Bytes) | Stat | Read

  predicate Enabled(s: State, a: Step) {
    match a
    case Append(_) => true
    case Stat => s.size == None
    case Read => s.size.Some? && s.offset <= |s.Content()|
  }

  function Do(s: State, a: Step): State
    requires Enabled(s, a)
  {
    match a
    case Append(text) => s.(log := Some(s.Content() + text))
    case Stat =>
      // a missing or unchanged log ends the poll with nothing
      if s.log == None || s.offset >= |s.Content()| then s else s.(size := Some(|s.Content()|))
    case Read =>
      var (all, size) := (s.Content(), s.size.value);
      s.(got := s.got + all[s.offset..], offset := size, size := None,
         pieces := s.pieces + [Piece(s.offset, |all|)], extra := s.extra + if |all| > size then |all| - size else 0)
  }

  const start := State(None, None, [], 0, [], 0)

  ghost predicate Run(states: seq<State>, steps: seq<Step>) {
    && |states| == |steps| + 1 && states[0] == start
    && forall i | 0 <= i < |steps| :: Enabled(states[i], steps[i]) && states[i + 1] == Do(states[i], steps[i])
  }

  /** The bytes of the pieces, one after the other. */
  function Delivered(log: Bytes, pieces: seq<Piece>): Bytes {
    if pieces == [] then []
    else
      var last := pieces[|pieces| - 1];
      Delivered(log, pieces[..|pieces| - 1]) + if last.from <= last.to <= |log| then log[last.from..last.to] else []
  }

  /** The pieces start at the beginning, lie within the file, and leave no gap: each starts no later than the
      one before ends. */
  ghost predicate NoGap(pieces: seq<Piece>, offset: nat, length: nat) {
    && (forall k | 0 <= k < |pieces| :: pieces[k].from <= pieces[k].to <= length)
    && (pieces == [] ==> offset == 0)
    && (pieces != [] ==> pieces[0].from == 0 && offset <= pieces[|pieces| - 1].to)
    && forall k | 0 < k < |pieces| :: pieces[k].from <= pieces[k - 1].to
  }

  ghost predicate Inv(s: State) {
    && s.offset <= |s.Content()|
    && (s.size.Some? ==> s.offset < s.size.value <= |s.Content()|)
    && |s.got| == s.offset + s.extra
    && NoGap(s.pieces, s.offset, |s.Content()|)
    && s.got == Delivered(s.Content(), s.pieces)
    && (s.extra == 0 ==> s.got == s.Content()[..s.offset])
  }

  /** What was delivered stays the same stretches of the file. */
  lemma {:induction false} DeliveredOfLonger(log: Bytes, more: Bytes, pieces: seq<Piece>)
    requires forall k | 0 <= k < |pieces| :: pieces[k].from <= pieces[k].to <= |log|
    ensures Delivered(log + more, pieces) == Delivered(log, pieces)
  {
    if pieces != [] {
      var last := pieces[|pieces| - 1];
      DeliveredOfLonger(log, more, pieces[..|pieces| - 1]);
      assert (log + more)[last.from..last.to] == log[last.from..last.to];
    }
  }

  lemma {:induction false} AppendKeepsInv(s: State, text: Bytes)
    requires Inv(s)
    ensures Inv(Do(s, Append(text)))
  {
    DeliveredOfLonger(s.Content(), text, s.pieces);
    assert (s.Content() + text)[..s.offset] == s.Content()[..s.offset];
  }

  lemma {:induction false} ReadKeepsInv(s: State)
    requires Inv(s) && Enabled(s, Read)
    ensures Inv(Do(s, Read))
  {
    var (s', all) := (Do(s, Read), s.Content());
    var last := Piece(s.offset, |all|);
    assert s'.pieces == s.pieces + [last];
    PieceMore(all, s.pieces, last);
    NoGapSnoc(s.pieces, s.offset, |all|, s'.offset);
    if s'.extra == 0 {
      assert all[..s.offset] + all[s.offset..] == all;
    }
  }

  lemma {:induction false} PieceMore(log: Bytes, pieces: seq<Piece>, last: Piece)
    requires last.from <= last.to == |log|
    ensures Delivered(log, pieces + [last]) == Delivered(log, pieces) + log[last.from..]
  {
    assert (pieces + [last])[..|pieces|] == pieces;
    assert log[last.from..last.to] == log[last.from..];
  }

  lemma {:induction false} NoGapSnoc(pieces: seq<Piece>, offset: nat, length: nat, size: nat)
    requires NoGap(pieces, offset, length) && offset <= size <= length
    ensures NoGap(pieces + [Piece(offset, length)], size, length)
  {
  }

  lemma {:induction false} RunKeepsInv(states: seq<State>, steps: seq<Step>, n: nat)
    requires Run(states, steps) && n < |states|
    ensures Inv(states[n])
    decreases n
  {
    if n > 0 {
      RunKeepsInv(states, steps, n - 1);
      match steps[n - 1]
      case Append(text) => AppendKeepsInv(states[n - 1], text);
      case Stat =>
      case Read => ReadKeepsInv(states[n - 1]);
    }
  }

  /** Whatever falls where, a read is possible once the size is taken, nothing of the file up to the offset is
      missed, and the poller has received as many bytes as its offset says and those that came beyond a size. */
  lemma {:induction false} NothingMissed(states: seq<State>, steps: seq<Step>, n: nat)
    requires Run(states, steps) && n < |states|
    ensures var s := states[n];
            && (s.size.Some? ==> Enabled(s, Read))
            && s.got == Delivered(s.Content(), s.pieces) && NoGap(s.pieces, s.offset, |s.Content()|)
            && s.offset <= |s.Content()| && |s.got| == s.offset + s.extra
  {
    RunKeepsInv(states, steps, n);
  }

  /** Something is appended between the size and the read of the poll whose read is step `i`. */
  ghost predicate Disturbed(states: seq<State>, steps: seq<Step>, i: nat)
    requires i < |steps| && i < |states|
  {
    steps[i] == Read && exists j :: 0 <= j < i && steps[j].Append? && steps[j].text != [] && forall k | j < k < i :: steps[k] != Stat
  }

  /** Between two states the file only grows, by what is appended. */
  lemma {:induction false} LogGrows(states: seq<State>, steps: seq<Step>, m: nat, n: nat)
    requires Run(states, steps) && m <= n < |states|
    ensures |states[m].Content()| <= |states[n].Content()|
    ensures |states[m].Content()| == |states[n].Content()| <==> forall k | m <= k < n :: steps[k].Append? ==> steps[k].text == []
    decreases n
  {
    if m < n {
      LogGrows(states, steps, m, n - 1);
      assert states[n] == Do(states[n - 1], steps[n - 1]);
    }
  }

  /** The step that took the size a poll holds. */
  lemma {:induction false} SizeTakenAt(states: seq<State>, steps: seq<Step>, n: nat) returns (j: nat)
    requires Run(states, steps) && n < |states| && states[n].size.Some?
    ensures j < n && steps[j] == Stat && states[n].size == Some(|states[j].Content()|) && states[j + 1].Content() == states[j].Content()
    ensures forall k | j < k < n :: steps[k] != Stat
    decreases n
  {
    assert states[n] == Do(states[n - 1], steps[n - 1]);
    if steps[n - 1] == Stat {
      j := n - 1;
    } else {
      j := SizeTakenAt(states, steps, n - 1);
    }
  }

  /** A read goes beyond the size exactly if its poll is disturbed. */
  lemma {:induction false} ExtraIffDisturbed(states: seq<State>, steps: seq<Step>, i: nat)
    requires Run(states, steps) && i < |steps| && steps[i] == Read
    ensures states[i + 1].extra > states[i].extra <==> Disturbed(states, steps, i)
  {
    RunKeepsInv(states, steps, i);
    assert Enabled(states[i], steps[i]) && states[i + 1] == Do(states[i], steps[i]);
    var j := SizeTakenAt(states, steps, i);
    LogGrows(states, steps, j, i);
    if Disturbed(states, steps, i) {
      var a :| 0 <= a < i && steps[a].Append? && steps[a].text != [] && forall k | a < k < i :: steps[k] != Stat;
      assert j <= a;
    }
  }

  lemma {:induction false} NoExtraIffNoneDisturbed(states: seq<State>, steps: seq<Step>, n: nat)
    requires Run(states, steps) && n < |states|
    ensures states[n].extra == 0 <==> forall i | 0 <= i < n :: !Disturbed(states, steps, i)
    decreases n
  {
    if n > 0 {
      NoExtraIffNoneDisturbed(states, steps, n - 1);
      assert states[n] == Do(states[n - 1], steps[n - 1]);
      if steps[n - 1] == Read {
        ExtraIffDisturbed(states, steps, n - 1);
      }
    }
  }

  /** A poller has received every byte up to its offset once, in order, if and only if nothing was appended
      between the size and the read of any of its polls; otherwise some were delivered again. */
  lemma {:induction false} PollsDeliverOnceIffUndisturbed(states: seq<State>, steps: seq<Step>, n: nat)
    requires Run(states, steps) && n < |states|
    ensures var s := states[n];
            && s.offset <= |s.Content()|
            && (s.got == s.Content()[..s.offset] <==> forall i | 0 <= i < n :: !Disturbed(states, steps, i))
  {
    RunKeepsInv(states, steps, n);
    NoExtraIffNoneDisturbed(states, steps, n);
  }

  /** And it has all there is after any poll that nothing falls into. */
  lemma {:induction false} UndisturbedPollCatchesUp(states: seq<State>, steps: seq<Step>, n: nat)
    requires Run(states, steps) && n < |states| && states[n].size == None
    ensures var sized := Do(states[n], Stat);
            if sized.size == None then sized.offset == |sized.Content()|
            else Enabled(sized, Read) && Do(sized, Read).offset == |sized.Content()|
  {
    RunKeepsInv(states, steps, n);
  }

  /** If no poll is ever disturbed, polling each content in turn delivers the last content. */
  function Polled(contents: seq<Option<Bytes>>): (Bytes, int) {
    if contents == [] then ([], 0)
    else
      var (got, offset) := Polled(contents[..|contents| - 1]);
      var (more, next) := Tail(contents[|contents| - 1], offset);
      (got + more, next)
  }

  /** The log only grows: created once, then appended to. */
  ghost predicate Growing(contents: seq<Option<Bytes>>) {
    forall i, j | 0 <= i < j < |contents| && contents[i].Some? :: contents[j].Some? && contents[i].value <= contents[j].value
  }

  lemma {:induction false} UndisturbedPollsDeliverEveryByteOnce(contents: seq<Option<Bytes>>)
    requires Growing(contents)
    ensures var (got, offset) := Polled(contents);
            && offset == |got|
            && got == if contents == [] || contents[|contents| - 1].None? then [] else contents[|contents| - 1].value
  {
    if contents != [] {
      var (front, last) := (contents[..|contents| - 1], contents[|contents| - 1]);
      UndisturbedPollsDeliverEveryByteOnce(front);
      if front != [] && front[|front| - 1].Some? {
        assert contents[|front| - 1] == front[|front| - 1];
        assert contents[|contents| - 1].Some? && front[|front| - 1].value <= last.value;
      }
    }
  }

  /** An input on which a byte arrives twice: one append between the size and the read of the first poll. */
  lemma {:induction false} DisturbedPollDeliversTwice() returns (states: seq<State>)
    ensures Run(states, [Append([1]), Stat, Append([2]), Read, Stat, Read])
    ensures var last := states[6]; last.log == Some([1, 2]) && last.got == [1, 2, 2] && last.offset == 2
  {
    var s1 := Do(start, Append([1]));
    assert [] + [1] == [1] && s1.log == Some([1]);
    var s2 := Do(s1, Stat);
    var s3 := Do(s2, Append([2]));
    assert [1] + [2] == [1, 2] && s3.log == Some([1, 2]);
    var s4 := Do(s3, Read);
    assert [] + [1, 2][0..] == [1, 2] && s4.got == [1, 2] && s4.offset == 1;
    var s5 := Do(s4, Stat);
    var s6 := Do(s5, Read);
    assert [1, 2][1..] == [2] && [1, 2] + [2] == [1, 2, 2];
    states := [start, s1, s2, s3, s4, s5, s6];
  }
}
