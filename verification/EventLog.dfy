/** gui/shared_state.py: the append-only event log and its readers, and what becomes of the numbers of events
    when several writers count the lines and append at the same time.  A consumer that polls the log is in
    EventPoll.dfy; tailing a run's log is in LogTail.dfy. */
module EventLog {
  import opened Hashing

  /** A record's `seq` entry; a record may come from elsewhere and lack it. */
  datatype SeqField = Missing | Number(n: int) | NotANumber

  datatype Record<P> = Record(seqNo: SeqField, payload: P)

  datatype Line<P> = Blank | Malformed | Rec(r: Record<P>)

  /** `_count_lines`: lines that are not blank, malformed ones included. */
  function Count<P>(lines: seq<Line<P>>): nat {
    if lines == [] then 0 else Count(lines[..|lines| - 1]) + if lines[|lines| - 1].Blank? then 0 else 1
  }

  lemma {:induction false} CountAtMostLength<P>(lines: seq<Line<P>>)
    ensures Count(lines) <= |lines|
    ensures (forall l | l in lines :: !l.Blank?) ==> Count(lines) == |lines|
  {
    if lines != [] {
      CountAtMostLength(lines[..|lines| - 1]);
    }
  }

  ghost function NotBlank<P>(lines: seq<Line<P>>): set<int> {
    set i | 0 <= i < |lines| && !lines[i].Blank?
  }

  /** It is the number of the lines that are not blank. */
  lemma {:induction false} CountIsSize<P>(lines: seq<Line<P>>)
    ensures Count(lines) == |NotBlank(lines)|
  {
    if lines == [] {
      assert NotBlank(lines) == {};
    } else {
      var n := |lines| - 1;
      CountIsSize(lines[..n]);
      var newest: set<int> := if lines[n].Blank? then {} else {n};
      forall i: int ensures i in NotBlank(lines) <==> i in NotBlank(lines[..n]) + newest {
        if 0 <= i < n { assert lines[..n][i] == lines[i]; }
      }
      assert NotBlank(lines) == NotBlank(lines[..n]) + newest;
    }
  }

  /* ---------------------------------------------------------------- reading */

  /** The records numbered `since` or higher; a record without a number counts as its line index. */
  function Filtered<P>(lines: seq<Line<P>>, since: int): seq<Record<P>> {
    if lines == [] then []
    else
      var (front, last) := (lines[..|lines| - 1], lines[|lines| - 1]);
      Filtered(front, since) + if last.Rec? && Passes(last.r, |front|, since) then [last.r] else []
  }

  predicate Passes<P>(r: Record<P>, index: nat, since: int) {
    match r.seqNo
    case Missing => index >= since
    case Number(n) => n >= since
    case NotANumber => false
  }

  /** The line has a record whose number, or whose line index in place of a missing one, is at least `since`. */
  predicate Chosen<P>(lines: seq<Line<P>>, since: int, i: nat) {
    && i < |lines| && lines[i].Rec?
    && match lines[i].r.seqNo
       case Missing => i >= since
       case Number(n) => n >= since
       case NotANumber => false
  }

  /** The records at the given positions, which are those chosen from the first `n` lines, in order. */
  ghost predicate Picks<P>(lines: seq<Line<P>>, since: int, n: nat, at: seq<nat>, rs: seq<Record<P>>) {
    && |at| == |rs| && n <= |lines|
    && (forall k | 0 <= k < |at| :: at[k] < n && Chosen(lines, since, at[k]) && lines[at[k]].r == rs[k])
    && (forall j, k | 0 <= j < k < |at| :: at[j] < at[k])
    && forall i: nat | i < n && Chosen(lines, since, i) :: i in at
  }

  lemma {:induction false} FilteredAre<P>(lines: seq<Line<P>>, since: int, n: nat) returns (at: seq<nat>)
    requires n <= |lines|
    ensures Picks(lines, since, n, at, Filtered(lines[..n], since))
  {
    if n == 0 {
      at := [];
    } else {
      at := FilteredAre(lines, since, n - 1);
      assert lines[..n][..n - 1] == lines[..n - 1];
      PicksOneMore(lines, since, n - 1, at, Filtered(lines[..n - 1], since));
      if Chosen(lines, since, n - 1) {
        at := at + [n - 1];
      }
    }
  }

  lemma {:induction false} PicksOneMore<P>(lines: seq<Line<P>>, since: int, n: nat, at: seq<nat>, rs: seq<Record<P>>)
    requires n < |lines| && Picks(lines, since, n, at, rs)
    ensures if Chosen(lines, since, n) then Picks(lines, since, n + 1, at + [n], rs + [lines[n].r]) else Picks(lines, since, n + 1, at, rs)
  {
    if Chosen(lines, since, n) {
      var longer := at + [n];
      assert longer[|at|] == n;
      forall i: nat | i < n + 1 && Chosen(lines, since, i) ensures i in longer {
        if i < n { assert i in at; }
      }
    }
  }

  /** Each number once, in the order of first appearance. */
  function Order<P>(rs: seq<Record<P>>): seq<SeqField> {
    if rs == [] then []
    else
      var (front, last) := (rs[..|rs| - 1], rs[|rs| - 1]);
      Order(front) + if last.seqNo in Order(front) then [] else [last.seqNo]
  }

  ghost predicate Occurs<P>(rs: seq<Record<P>>, k: SeqField) {
    exists i :: 0 <= i < |rs| && rs[i].seqNo == k
  }

  lemma {:induction false} OrderMembers<P>(rs: seq<Record<P>>)
    ensures forall k :: k in Order(rs) <==> Occurs(rs, k)
    ensures forall i, j | 0 <= i < j < |Order(rs)| :: Order(rs)[i] != Order(rs)[j]
    ensures |Order(rs)| <= |rs|
  {
    if rs != [] {
      var (front, last) := (rs[..|rs| - 1], rs[|rs| - 1]);
      assert rs == front + [last];
      OrderMembers(front);
      forall k | Occurs(rs, k) ensures k in Order(rs) {
        var i :| 0 <= i < |rs| && rs[i].seqNo == k;
        if i < |front| { assert front[i].seqNo == k; }
      }
      forall k | k in Order(rs) ensures Occurs(rs, k) {
        if k in Order(front) {
          var i :| 0 <= i < |front| && front[i].seqNo == k;
          assert rs[i].seqNo == k;
        } else {
          assert rs[|rs| - 1].seqNo == k;
        }
      }
    }
  }

  /** A number that comes before another in the order has appeared first. */
  lemma {:induction false} OrderIsOfAppearance<P>(rs: seq<Record<P>>, a: nat, b: nat)
    requires a < b < |Order(rs)|
    ensures exists i :: 0 <= i < |rs| && rs[i].seqNo == Order(rs)[a] && forall j | 0 <= j <= i :: rs[j].seqNo != Order(rs)[b]
  {
    var front := rs[..|rs| - 1];
    OrderMembers(rs);
    OrderMembers(front);
    if b < |Order(front)| {
      OrderIsOfAppearance(front, a, b);
      var i :| 0 <= i < |front| && front[i].seqNo == Order(front)[a] && forall j | 0 <= j <= i :: front[j].seqNo != Order(front)[b];
      assert rs[i].seqNo == Order(rs)[a] && forall j | 0 <= j <= i :: rs[j] == front[j];
    } else {
      assert Order(front)[a] in Order(front);
      var i :| 0 <= i < |front| && front[i].seqNo == Order(front)[a];
      assert rs[i].seqNo == Order(rs)[a];
      forall j | 0 <= j <= i ensures rs[j].seqNo != Order(rs)[b] {
        assert rs[j] == front[j];
        assert Occurs(front, front[j].seqNo);
      }
    }
  }

  /** Position of the last record with the given number. */
  function LastIndex<P>(rs: seq<Record<P>>, k: SeqField): (i: nat)
    requires Occurs(rs, k)
    ensures i < |rs| && rs[i].seqNo == k
    ensures forall j | i < j < |rs| :: rs[j].seqNo != k
  {
    if rs[|rs| - 1].seqNo == k then |rs| - 1
    else
      assert var j :| 0 <= j < |rs| && rs[j].seqNo == k; rs[..|rs| - 1][j].seqNo == k;
      LastIndex(rs[..|rs| - 1], k)
  }

  /** One record per number, in the order in which the numbers first appear, each the last of its number. */
  function Latest<P>(rs: seq<Record<P>>): (out: seq<Record<P>>)
    ensures |out| == |Order(rs)|
  {
    OrderMembers(rs);
    assert forall i | 0 <= i < |Order(rs)| :: Order(rs)[i] in Order(rs) && Occurs(rs, Order(rs)[i]);
    seq(|Order(rs)|, i requires 0 <= i < |Order(rs)| => rs[LastIndex(rs, Order(rs)[i])])
  }

  /** The records that have no later one of their number, each number once. */
  lemma {:induction false} LatestAre<P>(rs: seq<Record<P>>)
    ensures forall k | 0 <= k < |Latest(rs)| ::
              Latest(rs)[k].seqNo == Order(rs)[k] && exists i :: 0 <= i < |rs| && rs[i] == Latest(rs)[k] && forall j | i < j < |rs| :: rs[j].seqNo != rs[i].seqNo
    ensures forall k, l | 0 <= k < l < |Latest(rs)| :: Latest(rs)[k].seqNo != Latest(rs)[l].seqNo
  {
    OrderMembers(rs);
    forall k | 0 <= k < |Latest(rs)|
      ensures Latest(rs)[k].seqNo == Order(rs)[k] && exists i :: 0 <= i < |rs| && rs[i] == Latest(rs)[k] && forall j | i < j < |rs| :: rs[j].seqNo != rs[i].seqNo
    {
      assert Order(rs)[k] in Order(rs);
      var i := LastIndex(rs, Order(rs)[k]);
      assert rs[i] == Latest(rs)[k];
    }
  }

  /** The most recent `limit` of them, when a limit is given. */
  function Limited<P>(out: seq<Record<P>>, limit: Option<int>): seq<Record<P>> {
    if limit.None? || limit.value < 0 || limit.value >= |out| then out
    else out[|out| - limit.value..]
  }

  class Log<P> {
    var lines: seq<Line<P>>

    constructor ()
      ensures lines == []
    {
      lines := [];
    }

    method CountLines() returns (n: nat)
      ensures n == Count(lines) == |set i | 0 <= i < |lines| && !lines[i].Blank?|
    {
      CountIsSize(lines);
      n := 0;
      for i := 0 to |lines|
        invariant n == Count(lines[..i])
      {
        assert lines[..i + 1][..i] == lines[..i];
        if !lines[i].Blank? {
          n := n + 1;
        }
      }
      assert lines[..|lines|] == lines;
    }

    /** The number is the count of non-blank lines at the time; an unknown source or empty kind is refused. */
    method Append(source: string, kind: string, payload: P) returns (r: Option<Record<P>>)
      modifies this
      ensures r.Some? <==> source in {"gui", "claude", "assistant"} && kind != ""
      ensures r.Some? ==> r.value == Record(Number(Count(old(lines))), payload) && lines == old(lines) + [Rec(r.value)]
      ensures r.None? ==> lines == old(lines)
    {
      if source !in {"gui", "claude", "assistant"} || kind == "" {
        return None;
      }
      var existing := CountLines();
      var record := Record(Number(existing), payload);
      lines := lines + [Rec(record)];
      return Some(record);
    }

    method Read(since: int, limit: Option<int>) returns (out: seq<Record<P>>)
      ensures out == Limited(Latest(Filtered(lines, since)), limit)
      ensures var all := Latest(Filtered(lines, since));
              out == if limit.None? || limit.value < 0 || limit.value >= |all| then all else all[|all| - limit.value..]
    {
      var selected := [];
      for i := 0 to |lines|
        invariant selected == Filtered(lines[..i], since)
      {
        assert lines[..i + 1][..i] == lines[..i];
        if lines[i].Rec? && Passes(lines[i].r, i, since) {
          selected := selected + [lines[i].r];
        }
      }
      assert lines[..|lines|] == lines;
      out := Dedupe(selected);
      if limit.Some? && limit.value >= 0 {
        out := if limit.value >= |out| then out else out[|out| - limit.value..];
      }
    }

    /** The dictionary and order list of `read_events`. */
    method Dedupe(rs: seq<Record<P>>) returns (out: seq<Record<P>>)
      ensures out == Latest(rs)
    {
      var latest: map<SeqField, nat> := map[];
      var order: seq<SeqField> := [];
      for i := 0 to |rs|
        invariant order == Order(rs[..i])
        invariant forall k :: k in latest <==> k in order
        invariant LastSeen(rs, i, latest)
      {
        assert rs[..i + 1][..i] == rs[..i];
        var key := rs[i].seqNo;
        if key !in latest {
          order := order + [key];
        }
        latest := latest[key := i];
      }
      assert rs[..|rs|] == rs;
      out := PickLatest(rs, latest, order);
    }

    method PickLatest(rs: seq<Record<P>>, latest: map<SeqField, nat>, order: seq<SeqField>) returns (out: seq<Record<P>>)
      requires order == Order(rs) && LastSeen(rs, |rs|, latest) && forall k | k in order :: k in latest
      ensures out == Latest(rs)
    {
      OrderMembers(rs);
      out := [];
      for i := 0 to |order|
        invariant |out| == i && forall k | 0 <= k < i :: out[k] == Latest(rs)[k]
      {
        assert order[i] in order;
        LastSeenIsLast(rs, latest, order[i]);
        out := out + [rs[latest[order[i]]]];
      }
    }
  }

  /** The dictionary holds the position of the last record seen of each number. */
  ghost predicate LastSeen<P>(rs: seq<Record<P>>, n: nat, latest: map<SeqField, nat>)
    requires n <= |rs|
  {
    forall k | k in latest :: latest[k] < n && rs[latest[k]].seqNo == k && forall j | latest[k] < j < n :: rs[j].seqNo != k
  }

  lemma {:induction false} LastSeenIsLast<P>(rs: seq<Record<P>>, latest: map<SeqField, nat>, k: SeqField)
    requires LastSeen(rs, |rs|, latest) && k in latest
    requires Occurs(rs, k)
    ensures latest[k] < |rs| && latest[k] == LastIndex(rs, k)
  {
    var i := LastIndex(rs, k);
    assert rs[i].seqNo == k && rs[latest[k]].seqNo == k;
  }

  /* ---------------------------------------------------------------- appends that do not overlap */

  /** Event k carries number k. */
  ghost predicate InOrder<P>(lines: seq<Line<P>>) {
    forall i | 0 <= i < |lines| :: lines[i].Rec? && lines[i].r.seqNo == Number(i)
  }

  /** An append that counts and writes without interruption keeps the numbering. */
  lemma {:induction false} AppendKeepsOrder<P>(lines: seq<Line<P>>, payload: P)
    requires InOrder(lines)
    ensures InOrder(lines + [Rec(Record(Number(Count(lines)), payload))])
  {
    CountAtMostLength(lines);
  }

  lemma {:induction false} FilteredSuffix<P>(lines: seq<Line<P>>, since: int)
    requires InOrder(lines)
    ensures var from := if since < 0 then 0 else if since > |lines| then |lines| else since;
            && |Filtered(lines, since)| == |lines| - from
            && forall i | 0 <= i < |Filtered(lines, since)| :: Filtered(lines, since)[i] == lines[from + i].r
  {
    if lines != [] {
      FilteredSuffix(lines[..|lines| - 1], since);
    }
  }

  ghost predicate DistinctNumbers<P>(rs: seq<Record<P>>) {
    forall i, j | 0 <= i < j < |rs| :: rs[i].seqNo != rs[j].seqNo
  }

  lemma {:induction false} DistinctSnoc<P>(front: seq<Record<P>>, last: Record<P>)
    ensures DistinctNumbers(front + [last]) <==> DistinctNumbers(front) && forall i | 0 <= i < |front| :: front[i].seqNo != last.seqNo
  {
    var rs := front + [last];
    assert rs[|front|] == last && forall i | 0 <= i < |front| :: rs[i] == front[i];
  }

  lemma {:induction false} OrderOfDistinct<P>(rs: seq<Record<P>>)
    ensures |Order(rs)| == |rs| <==> DistinctNumbers(rs)
    ensures DistinctNumbers(rs) ==> forall i | 0 <= i < |rs| :: Order(rs)[i] == rs[i].seqNo
  {
    if rs != [] {
      var (front, last) := (rs[..|rs| - 1], rs[|rs| - 1]);
      assert rs == front + [last];
      OrderMembers(front);
      OrderOfDistinct(front);
      DistinctSnoc(front, last);
    }
  }

  /** A read drops nothing exactly when the numbers are distinct. */
  lemma {:induction false} ReadsAllIffDistinct<P>(rs: seq<Record<P>>)
    ensures |Latest(rs)| <= |rs|
    ensures |Latest(rs)| == |rs| <==> DistinctNumbers(rs)
    ensures |Latest(rs)| == |rs| ==> Latest(rs) == rs
  {
    OrderMembers(rs);
    OrderOfDistinct(rs);
    if DistinctNumbers(rs) {
      forall i | 0 <= i < |rs| ensures Latest(rs)[i] == rs[i] {
        var k := rs[i].seqNo;
        assert Order(rs)[i] == k;
        assert rs[LastIndex(rs, k)].seqNo == k;
      }
    }
  }

  /** What a reader gets in general: of each number the record written last. */
  lemma {:induction false} LatestIsLastOfItsNumber<P>(rs: seq<Record<P>>, i: nat)
    requires i < |rs|
    ensures rs[i] in Latest(rs) || exists j :: i < j < |rs| && rs[j].seqNo == rs[i].seqNo
  {
    OrderMembers(rs);
    var k := rs[i].seqNo;
    assert k in Order(rs);
    var p :| 0 <= p < |Order(rs)| && Order(rs)[p] == k;
    assert Latest(rs)[p] == rs[LastIndex(rs, k)];
    var j := LastIndex(rs, k);
    if j > i { assert rs[j].seqNo == rs[i].seqNo; }
  }

  lemma {:induction false} LatestOfDistinct<P>(rs: seq<Record<P>>)
    requires DistinctNumbers(rs)
    ensures Latest(rs) == rs
  {
    ReadsAllIffDistinct(rs);
  }

  lemma {:induction false} SuffixDistinct<P>(lines: seq<Line<P>>, since: int)
    requires InOrder(lines)
    ensures DistinctNumbers(Filtered(lines, since))
  {
    FilteredSuffix(lines, since);
    var (rs, from) := (Filtered(lines, since), if since < 0 then 0 else if since > |lines| then |lines| else since);
    forall i | 0 <= i < |rs| ensures rs[i].seqNo == Number(from + i) {
      assert rs[i] == lines[from + i].r;
    }
  }

  /** If each event carries its line index, `read_events(since)` is the suffix of events from `since` on. */
  lemma {:induction false} ReadIsSuffix<P>(lines: seq<Line<P>>, since: int)
    requires InOrder(lines)
    ensures var (from, out) := (if since < 0 then 0 else if since > |lines| then |lines| else since, Latest(Filtered(lines, since)));
            && |out| == |lines| - from
            && forall i | 0 <= i < |out| :: out[i] == lines[from + i].r
  {
    FilteredSuffix(lines, since);
    SuffixDistinct(lines, since);
    LatestOfDistinct(Filtered(lines, since));
  }

  /* ---------------------------------------------------------------- appends that do */

  /** `append_event` by several writers: counting the lines and writing are separate steps. */
  datatype State<P> = State(lines: seq<Line<P>>, counted: map<nat, nat>)

  datatype Step<P> = CountStep(w: nat) | AppendStep(w: nat, payload: P) | CrashStep(w: nat)

  predicate Enabled<P>(s: State<P>, a: Step<P>) {
    match a
    case CountStep(w) => w !in s.counted
    case AppendStep(w, _) => w in s.counted
    case CrashStep(w) => w in s.counted
  }

  function Do<P>(s: State<P>, a: Step<P>): State<P>
    requires Enabled(s, a)
  {
    match a
    case CountStep(w) => s.(counted := s.counted[w := Count(s.lines)])
    case AppendStep(w, payload) => State(s.lines + [Rec(Record(Number(s.counted[w]), payload))], s.counted - {w})
    case CrashStep(w) => s.(counted := s.counted - {w})
  }

  /** A run from any file in which no number exceeds its line index, such as an empty one. */
  ghost predicate Run<P>(states: seq<State<P>>, steps: seq<Step<P>>) {
    && |states| == |steps| + 1
    && Bounded(states[0].lines) && states[0].counted == map[]
    && forall i | 0 <= i < |steps| :: Enabled(states[i], steps[i]) && states[i + 1] == Do(states[i], steps[i])
  }

  /** No number exceeds its line index. */
  ghost predicate Bounded<P>(lines: seq<Line<P>>) {
    forall i | 0 <= i < |lines| :: lines[i].Rec? && lines[i].r.seqNo.Number? && 0 <= lines[i].r.seqNo.n <= i
  }

  ghost predicate Inv<P>(s: State<P>) {
    Bounded(s.lines) && forall w | w in s.counted :: s.counted[w] <= |s.lines|
  }

  lemma {:induction false} RunKeepsInv<P>(states: seq<State<P>>, steps: seq<Step<P>>, n: nat)
    requires Run(states, steps) && n < |states|
    ensures Inv(states[n])
    decreases n
  {
    if n > 0 {
      RunKeepsInv(states, steps, n - 1);
      CountAtMostLength(states[n - 1].lines);
    }
  }

  /** Numbers that are distinct and never exceed their line index are the line indices. */
  lemma {:induction false} DistinctBoundedIsInOrder<P>(lines: seq<Line<P>>)
    requires Bounded(lines)
    requires forall i, j | 0 <= i < j < |lines| :: lines[i].r.seqNo != lines[j].r.seqNo
    ensures InOrder(lines)
  {
    if lines != [] {
      var (front, k) := (lines[..|lines| - 1], lines[|lines| - 1].r.seqNo.n);
      DistinctBoundedIsInOrder(front);
      assert forall i | 0 <= i < |front| :: lines[i] == front[i];
      forall i | 0 <= i < |front| ensures Number(i) != lines[|lines| - 1].r.seqNo {
        assert lines[i].r.seqNo == Number(i);
      }
      assert lines[|lines| - 1].r.seqNo == Number(k);
    }
  }

  lemma {:induction false} FilteredAll<P>(lines: seq<Line<P>>)
    requires Bounded(lines)
    ensures |Filtered(lines, 0)| == |lines| && forall i | 0 <= i < |lines| :: Filtered(lines, 0)[i] == lines[i].r
  {
    if lines != [] {
      FilteredAll(lines[..|lines| - 1]);
    }
  }

  lemma {:induction false} FullReadOfBounded<P>(lines: seq<Line<P>>)
    requires Bounded(lines)
    ensures |Latest(Filtered(lines, 0))| <= |lines|
    ensures |Latest(Filtered(lines, 0))| == |lines| <==> InOrder(lines)
  {
    var rs := Filtered(lines, 0);
    FilteredAll(lines);
    ReadsAllIffDistinct(rs);
    if DistinctNumbers(rs) {
      forall i, j | 0 <= i < j < |lines| ensures lines[i].r.seqNo != lines[j].r.seqNo {
        assert rs[i].seqNo != rs[j].seqNo;
      }
      DistinctBoundedIsInOrder(lines);
    }
    if InOrder(lines) {
      forall i, j | 0 <= i < j < |rs| ensures rs[i].seqNo != rs[j].seqNo {
        assert rs[i] == lines[i].r && rs[j] == lines[j].r;
      }
    }
  }

  /** With overlapping appends every number is at most its line index, and a full read returns every event
      if and only if each one carries its own line index; otherwise it has lost some. */
  lemma {:induction false} FullReadIffInOrder<P>(states: seq<State<P>>, steps: seq<Step<P>>, n: nat)
    requires Run(states, steps) && n < |states|
    ensures var (lines, out) := (states[n].lines, Latest(Filtered(states[n].lines, 0)));
            && Bounded(lines) && |out| <= |lines|
            && (|out| == |lines| <==> InOrder(lines))
  {
    RunKeepsInv(states, steps, n);
    FullReadOfBounded(states[n].lines);
  }

  lemma {:induction false} StepGrows<P>(s: State<P>, a: Step<P>)
    requires Enabled(s, a)
    ensures s.lines <= Do(s, a).lines && |Do(s, a).lines| == |s.lines| + if a.AppendStep? then 1 else 0
  {
  }

  /** The file only grows, and by appends. */
  lemma {:induction false} FileGrows<P>(states: seq<State<P>>, steps: seq<Step<P>>, i: nat, j: nat)
    requires Run(states, steps) && i <= j < |states|
    ensures states[i].lines <= states[j].lines
    ensures |states[i].lines| == |states[j].lines| <==> forall k | i <= k < j :: !steps[k].AppendStep?
    decreases j
  {
    if i < j {
      FileGrows(states, steps, i, j - 1);
      StepGrows(states[j - 1], steps[j - 1]);
    }
  }

  /** When a writer took the count it holds. */
  lemma {:induction false} CountedAt<P>(states: seq<State<P>>, steps: seq<Step<P>>, n: nat, w: nat) returns (j: nat)
    requires Run(states, steps) && n < |states| && w in states[n].counted
    ensures j < n && steps[j] == CountStep(w) && states[n].counted[w] == Count(states[j].lines)
    ensures forall k | j < k < n :: steps[k] != CountStep(w)
    decreases n
  {
    assert states[n] == Do(states[n - 1], steps[n - 1]);
    if steps[n - 1] == CountStep(w) {
      j := n - 1;
    } else {
      j := CountedAt(states, steps, n - 1, w);
    }
  }

  /** Since the writer of step `i` counted, nobody has appended. */
  ghost predicate Undisturbed<P>(steps: seq<Step<P>>, i: nat)
    requires i < |steps| && steps[i].AppendStep?
  {
    exists j :: 0 <= j < i && steps[j] == CountStep(steps[i].w) && forall k | j < k < i :: !steps[k].AppendStep?
  }

  /** Exactly then the record gets its own line index for a number. */
  lemma {:induction false} NumberIsIndexIffUndisturbed<P>(states: seq<State<P>>, steps: seq<Step<P>>, i: nat)
    requires Run(states, steps) && i < |steps| && steps[i].AppendStep?
    ensures steps[i].w in states[i].counted
    ensures states[i].counted[steps[i].w] == |states[i].lines| <==> Undisturbed(steps, i)
  {
    var w := steps[i].w;
    assert Enabled(states[i], steps[i]);
    var j := CountedAt(states, steps, i, w);
    RunKeepsInv(states, steps, j);
    CountAtMostLength(states[j].lines);
    FileGrows(states, steps, j, i);
    assert states[j + 1] == Do(states[j], steps[j]);
    FileGrows(states, steps, j, j + 1);
    if Undisturbed(steps, i) {
      var m :| 0 <= m < i && steps[m] == CountStep(w) && forall k | m < k < i :: !steps[k].AppendStep?;
      assert m <= j;
    }
  }

  lemma {:induction false} InOrderSnoc<P>(lines: seq<Line<P>>, last: Line<P>)
    ensures InOrder(lines + [last]) <==> InOrder(lines) && last.Rec? && last.r.seqNo == Number(|lines|)
  {
    var longer := lines + [last];
    assert longer[|lines|] == last && forall i | 0 <= i < |lines| :: longer[i] == lines[i];
  }

  /** Over any run, each event has its own line index for a number if and only if each had at the start and no
      append fell between a writer's count and its own append. */
  lemma {:induction false} InOrderIffUndisturbed<P>(states: seq<State<P>>, steps: seq<Step<P>>, n: nat)
    requires Run(states, steps) && n < |states|
    ensures InOrder(states[n].lines) <==>
            InOrder(states[0].lines) && forall i | 0 <= i < n && steps[i].AppendStep? :: Undisturbed(steps, i)
    decreases n
  {
    if n > 0 {
      InOrderIffUndisturbed(states, steps, n - 1);
      var (s, a) := (states[n - 1], steps[n - 1]);
      assert states[n] == Do(s, a);
      if a.AppendStep? {
        NumberIsIndexIffUndisturbed(states, steps, n - 1);
        InOrderSnoc(s.lines, Rec(Record(Number(s.counted[a.w]), a.payload)));
      }
    }
  }

  /** So a full read loses events exactly if some append was disturbed in this way, or some were lost before. */
  lemma {:induction false} FullReadIffUndisturbed<P>(states: seq<State<P>>, steps: seq<Step<P>>, n: nat)
    requires Run(states, steps) && n < |states|
    ensures |Latest(Filtered(states[n].lines, 0))| == |states[n].lines| <==>
            InOrder(states[0].lines) && forall i | 0 <= i < n && steps[i].AppendStep? :: Undisturbed(steps, i)
  {
    FullReadIffInOrder(states, steps, n);
    InOrderIffUndisturbed(states, steps, n);
  }
}
