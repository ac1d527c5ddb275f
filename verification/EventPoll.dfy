/** A consumer of the event log that polls `read_events(since)` and moves `since` past the highest number it has
    seen (gui/static/app.js:1780).  Its polls read the log as it is at some moments of a run; what is settled is
    when it has received every event, and which it never will. */
module EventPoll {
  import opened Hashing
  import opened EventLog

  function NextSince<P>(since: int, rs: seq<Record<P>>): (r: int)
    ensures r >= since
    ensures forall i | 0 <= i < |rs| && rs[i].seqNo.Number? :: rs[i].seqNo.n < r
  {
    if rs == [] then since
    else
      var (front, last) := (NextSince(since, rs[..|rs| - 1]), rs[|rs| - 1]);
      if last.seqNo.Number? && last.seqNo.n >= front then last.seqNo.n + 1 else front
  }

  /** What it has after polling each of the contents in turn, and where it stands. */
  function Polled<P>(contents: seq<seq<Line<P>>>): (seq<Record<P>>, int) {
    if contents == [] then ([], 0)
    else
      var (got, since) := Polled(contents[..|contents| - 1]);
      var more := Latest(Filtered(contents[|contents| - 1], since));
      (got + more, NextSince(since, more))
  }

  /** The log only grows. */
  ghost predicate Growing<P>(contents: seq<seq<Line<P>>>) {
    forall i, j | 0 <= i < j < |contents| :: contents[i] <= contents[j]
  }

  ghost predicate Numbered<P>(rs: seq<Record<P>>) {
    forall i | 0 <= i < |rs| :: rs[i].seqNo.Number?
  }

  ghost function NumbersOf<P>(rs: seq<Record<P>>): set<int>
    requires Numbered(rs)
  {
    set i | 0 <= i < |rs| :: rs[i].seqNo.n
  }

  lemma {:induction false} NumbersSnoc<P>(front: seq<Record<P>>, last: Record<P>)
    requires Numbered(front + [last])
    ensures Numbered(front) && last.seqNo.Number? && NumbersOf(front + [last]) == NumbersOf(front) + {last.seqNo.n}
  {
    var rs := front + [last];
    assert rs[|front|] == last && forall i | 0 <= i < |front| :: rs[i] == front[i];
    forall n | n in NumbersOf(front) + {last.seqNo.n} ensures n in NumbersOf(rs) {
      if n in NumbersOf(front) {
        var i :| 0 <= i < |front| && front[i].seqNo.n == n;
        assert rs[i].seqNo.n == n;
      } else {
        assert rs[|front|].seqNo.n == n;
      }
    }
  }

  /** As many numbers as records exactly if they are distinct. */
  lemma {:induction false} NumbersCount<P>(rs: seq<Record<P>>)
    requires Numbered(rs)
    ensures |NumbersOf(rs)| <= |rs|
    ensures |NumbersOf(rs)| == |rs| <==> DistinctNumbers(rs)
  {
    if rs == [] {
      assert NumbersOf(rs) == {};
    } else {
      var (front, last) := (rs[..|rs| - 1], rs[|rs| - 1]);
      assert rs == front + [last];
      NumbersSnoc(front, last);
      NumbersCount(front);
      DistinctSnoc(front, last);
      if last.seqNo.n in NumbersOf(front) {
        assert NumbersOf(front) + {last.seqNo.n} == NumbersOf(front);
        var i :| 0 <= i < |front| && front[i].seqNo.n == last.seqNo.n;
        assert front[i].seqNo == last.seqNo;
      } else {
        forall i | 0 <= i < |front| ensures front[i].seqNo != last.seqNo {
          assert front[i].seqNo.n in NumbersOf(front);
        }
      }
    }
  }

  lemma {:induction false} FilteredMembers<P>(lines: seq<Line<P>>, since: int)
    requires Bounded(lines)
    ensures forall r | r in Filtered(lines, since) ::
              r.seqNo.Number? && r.seqNo.n >= since && exists k :: 0 <= k < |lines| && lines[k].r == r
  {
    if lines != [] {
      var front := lines[..|lines| - 1];
      FilteredMembers(front, since);
      forall r | r in Filtered(front, since) ensures exists k :: 0 <= k < |lines| && lines[k].r == r {
        var k :| 0 <= k < |front| && front[k].r == r;
        assert lines[k].r == r;
      }
    }
  }

  /** One read: distinct numbers from `since` on, all of them of lines. */
  lemma {:induction false} ReadMembers<P>(lines: seq<Line<P>>, since: int)
    requires Bounded(lines)
    ensures var out := Latest(Filtered(lines, since));
            && Numbered(out) && DistinctNumbers(out)
            && forall i | 0 <= i < |out| :: out[i].seqNo.n >= since && exists k :: 0 <= k < |lines| && lines[k].r == out[i]
  {
    var rs := Filtered(lines, since);
    FilteredMembers(lines, since);
    OrderMembers(rs);
    forall i | 0 <= i < |Latest(rs)| ensures Latest(rs)[i] in rs && Latest(rs)[i].seqNo == Order(rs)[i] {
      assert Order(rs)[i] in Order(rs);
    }
  }

  ghost function RecordsOf<P>(lines: seq<Line<P>>): (r: seq<Record<P>>)
    requires Bounded(lines)
    ensures Numbered(r) && |r| == |lines|
  {
    seq(|lines|, i requires 0 <= i < |lines| => lines[i].r)
  }

  /** Everything received has its own number, below `since`, and is some line's record. */
  ghost predicate Received<P>(got: seq<Record<P>>, since: int, lines: seq<Line<P>>) {
    && Numbered(got) && DistinctNumbers(got)
    && forall i | 0 <= i < |got| :: got[i].seqNo.n < since && exists k :: 0 <= k < |lines| && lines[k].Rec? && lines[k].r == got[i]
  }

  lemma {:induction false} ReceivedMore<P>(got: seq<Record<P>>, since: int, was: seq<Line<P>>, lines: seq<Line<P>>)
    requires Received(got, since, was) && was <= lines && Bounded(lines)
    ensures var more := Latest(Filtered(lines, since)); Received(got + more, NextSince(since, more), lines)
  {
    var more := Latest(Filtered(lines, since));
    ReadMembers(lines, since);
    var (all, next) := (got + more, NextSince(since, more));
    forall i | 0 <= i < |all| ensures all[i].seqNo.Number? && all[i].seqNo.n < next && exists k :: 0 <= k < |lines| && lines[k].r == all[i] {
      if i < |got| {
        var k :| 0 <= k < |was| && was[k].r == got[i];
        assert lines[k].r == all[i];
      } else {
        assert all[i] == more[i - |got|];
      }
    }
    forall i, j | 0 <= i < j < |all| ensures all[i].seqNo != all[j].seqNo {
      if j < |got| {
        assert got[i].seqNo != got[j].seqNo;
      } else if i >= |got| {
        assert more[i - |got|].seqNo != more[j - |got|].seqNo;
      } else {
        assert all[i] == got[i] && all[j] == more[j - |got|];
      }
    }
  }

  lemma {:induction false} PollsReceive<P>(contents: seq<seq<Line<P>>>)
    requires contents != [] && Growing(contents) && Bounded(contents[|contents| - 1])
    ensures var (got, since) := Polled(contents); Received(got, since, contents[|contents| - 1])
  {
    var (front, last) := (contents[..|contents| - 1], contents[|contents| - 1]);
    if front == [] {
      var none: seq<Line<P>> := [];
      ReceivedMore([], 0, none, last);
    } else {
      var was := front[|front| - 1];
      assert was <= last;
      PollsReceive(front);
      ReceivedMore(Polled(front).0, Polled(front).1, was, last);
    }
  }

  /** On a log in which each event has its line index the poller receives the events in order, each once. */
  lemma {:induction false} PollsInOrder<P>(contents: seq<seq<Line<P>>>)
    requires contents != [] && Growing(contents) && InOrder(contents[|contents| - 1])
    ensures var (got, since) := Polled(contents);
            && since == |contents[|contents| - 1]| == |got|
            && forall i | 0 <= i < |got| :: got[i] == contents[|contents| - 1][i].r
  {
    var (front, last) := (contents[..|contents| - 1], contents[|contents| - 1]);
    if front != [] {
      var was := front[|front| - 1];
      assert was <= last;
      PollsInOrder(front);
    }
    var (got, since) := Polled(front);
    ReadIsSuffix(last, since);
    var more := Latest(Filtered(last, since));
    NextSinceOfRun(since, more);
  }

  lemma {:induction false} NextSinceOfRun<P>(since: int, rs: seq<Record<P>>)
    requires forall i | 0 <= i < |rs| :: rs[i].seqNo == Number(since + i)
    ensures NextSince(since, rs) == since + |rs|
  {
    if rs != [] {
      NextSinceOfRun(since, rs[..|rs| - 1]);
    }
  }

  /** However its polls fall, such a consumer has received every event of the log as it last read it if and only
      if each carries its own line index; otherwise it has received fewer, and as its `since` has passed their
      numbers it never will. */
  lemma {:induction false} PollerReceivesAllIffInOrder<P>(contents: seq<seq<Line<P>>>)
    requires contents != [] && Growing(contents) && Bounded(contents[|contents| - 1])
    ensures var (got, last) := (Polled(contents).0, contents[|contents| - 1]);
            && |got| <= |last|
            && (|got| == |last| <==> InOrder(last))
            && (InOrder(last) ==> forall i | 0 <= i < |got| :: got[i] == last[i].r)
  {
    var (got, last) := (Polled(contents).0, contents[|contents| - 1]);
    PollsReceive(contents);
    var rs := RecordsOf(last);
    forall n | n in NumbersOf(got) ensures n in NumbersOf(rs) {
      var i :| 0 <= i < |got| && got[i].seqNo.n == n;
      var k :| 0 <= k < |last| && last[k].r == got[i];
      assert rs[k].seqNo.n == n;
    }
    SubsetSize(NumbersOf(got), NumbersOf(rs));
    NumbersCount(got);
    NumbersCount(rs);
    if DistinctNumbers(rs) {
      forall i, j | 0 <= i < j < |last| ensures last[i].r.seqNo != last[j].r.seqNo {
        assert rs[i].seqNo != rs[j].seqNo;
      }
      DistinctBoundedIsInOrder(last);
    }
    if InOrder(last) {
      PollsInOrder(contents);
    }
  }

  lemma {:induction false} SubsetSize(a: set<int>, b: set<int>)
    requires a <= b
    ensures |a| <= |b|
  {
    assert b == a + (b - a);
  }

  /** In runs of writers whose counts and appends interleave: the consumer misses an event exactly if some append
      was disturbed, or the log was out of order from the start. */
  lemma {:induction false} PollerReceivesAllIffUndisturbed<P>(states: seq<State<P>>, steps: seq<Step<P>>, polls: seq<nat>)
    requires Run(states, steps) && polls != []
    requires forall k | 0 <= k < |polls| :: polls[k] < |states|
    requires forall k, l | 0 <= k < l < |polls| :: polls[k] <= polls[l]
    ensures var n := polls[|polls| - 1];
            var contents := seq(|polls|, k requires 0 <= k < |polls| => states[polls[k]].lines);
            |Polled(contents).0| == |states[n].lines| <==>
            InOrder(states[0].lines) && forall i | 0 <= i < n && steps[i].AppendStep? :: Undisturbed(steps, i)
  {
    var n := polls[|polls| - 1];
    var contents := seq(|polls|, k requires 0 <= k < |polls| => states[polls[k]].lines);
    forall k, l | 0 <= k < l < |contents| ensures contents[k] <= contents[l] {
      FileGrows(states, steps, polls[k], polls[l]);
    }
    RunKeepsInv(states, steps, n);
    PollerReceivesAllIffInOrder(contents);
    InOrderIffUndisturbed(states, steps, n);
  }

  /** An event appended with a number the consumer has passed is in no later poll. */
  lemma {:induction false} LateLowNumberNeverSeen<P>(lines: seq<Line<P>>, since: int, k: nat)
    requires Bounded(lines) && k < |lines| && lines[k].r.seqNo.n < since
    ensures lines[k].r !in Latest(Filtered(lines, since))
    ensures NextSince(since, Latest(Filtered(lines, since))) >= since
  {
    ReadMembers(lines, since);
  }
}
