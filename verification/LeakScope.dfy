/** lib/leak_checker.py: what a check scoped to a question or to an assessment looks for, after any run of
    registrations and clears. */
module LeakScope {
  import opened Hashing
  import opened LeakChecker
  import opened Substring

  /* ---------------------------------------------------------------- names and what they list */

  /** A question as the tables see it: the name it was given and the hashes of its texts. */
  datatype Given = Given(name: string, hashes: set<string>)

  function HashesOf(x: Texts, q: Question): set<string> {
    set n | n in Normalised(x, TextsOf(q)) :: x.hash(n)
  }

  /** They are those of the texts the question gives. */
  lemma {:induction false} HashesAre(x: Texts, q: Question, h: string)
    ensures h in HashesOf(x, q) <==> exists text, kind :: Wants(x, q, text, kind) && x.hash(x.normalize(text)) == h
  {
    var texts := TextsOf(q);
    if h in HashesOf(x, q) {
      var i :| 0 <= i < |texts| && Registrable(x, texts[i].0) && x.hash(x.normalize(texts[i].0)) == h;
      WantsAre(x, q, texts[i].0, texts[i].1);
    }
    if exists text, kind :: Wants(x, q, text, kind) && x.hash(x.normalize(text)) == h {
      var text, kind :| Wants(x, q, text, kind) && x.hash(x.normalize(text)) == h;
      WantsAre(x, q, text, kind);
      var i :| 0 <= i < |texts| && texts[i] == (text, kind);
      assert texts[i].0 == text;
    }
  }

  function CountAll(x: Texts, qs: seq<Question>): nat {
    if qs == [] then 0 else CountAll(x, qs[..|qs| - 1]) + CountOf(x, TextsOf(qs[|qs| - 1]))
  }

  /** What one call of `register_assessment` gives, in order. */
  function GivenBy(x: Texts, qs: seq<Question>): seq<Given> {
    if qs == [] then []
    else
      var (front, q) := (qs[..|qs| - 1], qs[|qs| - 1]);
      GivenBy(x, front) + [Given(NameOf(x, q, CountAll(x, front)), HashesOf(x, q))]
  }

  function Names(g: seq<Given>): set<string> {
    set i | 0 <= i < |g| :: g[i].name
  }

  /** What the last question of that name lists. */
  function LastOf(g: seq<Given>, name: string): Option<set<string>> {
    if g == [] then None
    else if g[|g| - 1].name == name then Some(g[|g| - 1].hashes)
    else LastOf(g[..|g| - 1], name)
  }

  lemma {:induction false} LastOfConcat(a: seq<Given>, b: seq<Given>, name: string)
    ensures LastOf(a + b, name) == if LastOf(b, name).Some? then LastOf(b, name) else LastOf(a, name)
  {
    if b == [] {
      assert a + b == a;
    } else {
      assert (a + b)[..|a + b| - 1] == a + b[..|b| - 1];
      LastOfConcat(a, b[..|b| - 1], name);
    }
  }

  /** Position `m` holds the last question of that name. */
  predicate IsLast(g: seq<Given>, name: string, m: nat) {
    m < |g| && g[m].name == name && forall j | m < j < |g| :: g[j].name != name
  }

  lemma {:induction false} LastOfIs(g: seq<Given>, name: string)
    ensures LastOf(g, name).Some? <==> name in Names(g)
    ensures forall m: nat | IsLast(g, name, m) :: LastOf(g, name) == Some(g[m].hashes)
    ensures LastOf(g, name).Some? ==> exists m: nat :: IsLast(g, name, m)
  {
    if g != [] {
      var (front, n) := (g[..|g| - 1], |g| - 1);
      LastOfIs(front, name);
      if g[n].name == name {
        assert IsLast(g, name, n);
      } else {
        forall m: nat | IsLast(g, name, m) ensures IsLast(front, name, m) {}
        if LastOf(front, name).Some? {
          var m: nat :| IsLast(front, name, m);
          assert IsLast(g, name, m);
        }
        assert name in Names(g) <==> name in Names(front) by {
          if name in Names(g) {
            var i :| 0 <= i < |g| && g[i].name == name;
            assert front[i].name == name;
          }
          if name in Names(front) {
            var i :| 0 <= i < |front| && front[i].name == name;
            assert g[i].name == name;
          }
        }
      }
    }
  }

  /* ---------------------------------------------------------------- one call */

  /** Registering texts under one question touches no other question and no assessment. */
  lemma {:induction false} TextsTouchOnly(x: Texts, t: Tables, aid: string, qid: string, texts: seq<(string, Kind)>, other: string)
    requires other != qid
    ensures var r := WithTexts(x, t, aid, qid, texts); (other in r.questions <==> other in t.questions) && Listed(r, other) == Listed(t, other)
  {
    if texts != [] {
      TextsTouchOnly(x, t, aid, qid, texts[..|texts| - 1], other);
    }
  }

  lemma {:induction false} TextsListed(x: Texts, t: Tables, aid: string, qid: string, texts: seq<(string, Kind)>)
    requires qid in t.questions
    ensures var r := WithTexts(x, t, aid, qid, texts);
            qid in r.questions && r.questions[qid] == t.questions[qid] + set n | n in Normalised(x, texts) :: x.hash(n)
  {
    if texts != [] {
      var (front, last) := (texts[..|texts| - 1], texts[|texts| - 1].0);
      assert texts == front + [texts[|texts| - 1]];
      TextsListed(x, t, aid, qid, front);
      assert Normalised(x, texts) == Normalised(x, front) + if Registrable(x, last) then {x.normalize(last)} else {};
    }
  }

  lemma {:induction false} QuestionListed(x: Texts, t: Tables, aid: string, qid: string, q: Question, name: string)
    requires aid in t.assessments
    ensures var r := WithQuestion(x, t, aid, qid, q);
            if name == qid then name in r.questions && Listed(r, name) == HashesOf(x, q)
            else (name in r.questions <==> name in t.questions) && Listed(r, name) == Listed(t, name)
  {
    var start := Started(t, aid, qid);
    if name == qid {
      TextsListed(x, start, aid, qid, TextsOf(q));
      assert start.questions[qid] == {};
    } else {
      TextsTouchOnly(x, start, aid, qid, TextsOf(q), name);
    }
  }

  /** After a call each name it gave lists the texts of the last question that got it, whatever it listed
      before; every other name lists what it did. */
  lemma {:induction false} CallLists(x: Texts, t: Tables, aid: string, qs: seq<Question>, name: string)
    requires aid in t.assessments
    ensures var (r, count) := WithQuestions(x, t, aid, qs);
            && count == CountAll(x, qs)
            && match LastOf(GivenBy(x, qs), name)
               case Some(hashes) => name in r.questions && Listed(r, name) == hashes
               case None => (name in r.questions <==> name in t.questions) && Listed(r, name) == Listed(t, name)
  {
    if qs != [] {
      var (front, q) := (qs[..|qs| - 1], qs[|qs| - 1]);
      CallLists(x, t, aid, front, name);
      var (mid, count) := WithQuestions(x, t, aid, front);
      QuestionListed(x, mid, aid, NameOf(x, q, count), q, name);
      assert GivenBy(x, qs)[..|GivenBy(x, qs)| - 1] == GivenBy(x, front);
    }
  }

  lemma {:induction false} CallNames(x: Texts, t: Tables, aid: string, qs: seq<Question>)
    requires aid in t.assessments
    ensures var (r, count) := WithQuestions(x, t, aid, qs);
            count == CountAll(x, qs) && r.assessments == t.assessments[aid := t.assessments[aid] + Names(GivenBy(x, qs))]
  {
    if qs == [] {
      assert t.assessments[aid] + Names(GivenBy(x, qs)) == t.assessments[aid];
    } else {
      var (front, q) := (qs[..|qs| - 1], qs[|qs| - 1]);
      CallNames(x, t, aid, front);
      var name := NameOf(x, q, CountAll(x, front));
      NamesSnoc(GivenBy(x, front), Given(name, HashesOf(x, q)));
      assert t.assessments[aid] + Names(GivenBy(x, qs)) == t.assessments[aid] + Names(GivenBy(x, front)) + {name};
    }
  }

  lemma {:induction false} NamesSnoc(g: seq<Given>, last: Given)
    ensures Names(g + [last]) == Names(g) + {last.name}
  {
    var longer := g + [last];
    assert longer[|g|] == last && forall i | 0 <= i < |g| :: longer[i] == g[i];
    forall n | n in Names(g) + {last.name} ensures n in Names(longer) {
      if n in Names(g) {
        var i :| 0 <= i < |g| && g[i].name == n;
        assert longer[i].name == n;
      }
    }
  }

  /** Questions of other names keep their answers .. */
  lemma {:induction false} OtherQuestionsKeepAnswers(x: Texts, t: Tables, aid: string, qs: seq<Question>, qid: string)
    requires qid !in Names(GivenBy(x, qs))
    ensures var r := Registered(x, t, aid, qs).0; (qid in r.questions <==> qid in t.questions) && Listed(r, qid) == Listed(t, qid)
  {
    CallLists(x, t.(assessments := t.assessments[aid := {}]), aid, qs, qid);
    LastOfIs(GivenBy(x, qs), qid);
  }

  /** .. but a name in use is taken over: it lists the texts of the last question given it, and no others. */
  lemma {:induction false} ReusedNameDropsAnswers(x: Texts, t: Tables, aid: string, qs: seq<Question>, qid: string)
    requires qid in Names(GivenBy(x, qs))
    ensures var (r, given) := (Registered(x, t, aid, qs).0, GivenBy(x, qs));
            qid in r.questions && exists m: nat :: IsLast(given, qid, m) && Listed(r, qid) == given[m].hashes
  {
    CallLists(x, t.(assessments := t.assessments[aid := {}]), aid, qs, qid);
    LastOfIs(GivenBy(x, qs), qid);
    var m: nat :| IsLast(GivenBy(x, qs), qid, m);
  }

  /* ---------------------------------------------------------------- whole runs */

  /** The questions registered since the last clear. */
  function GivenIn(x: Texts, ops: seq<Op>): seq<Given> {
    if ops == [] then []
    else
      match ops[|ops| - 1]
      case Register(_, qs) => GivenIn(x, ops[..|ops| - 1]) + GivenBy(x, qs)
      case Clear => []
  }

  /** The questions of the last registration of that assessment since the last clear. */
  function LastCall(ops: seq<Op>, aid: string): Option<seq<Question>> {
    if ops == [] then None
    else
      match ops[|ops| - 1]
      case Register(a, qs) => if a == aid then Some(qs) else LastCall(ops[..|ops| - 1], aid)
      case Clear => None
  }

  lemma {:induction false} RunLists(x: Texts, ops: seq<Op>, name: string)
    ensures var t := Reached(x, ops);
            match LastOf(GivenIn(x, ops), name)
            case Some(hashes) => name in t.questions && t.questions[name] == hashes
            case None => name !in t.questions
  {
    if ops != [] {
      var front := ops[..|ops| - 1];
      RunLists(x, front, name);
      match ops[|ops| - 1]
      case Register(aid, qs) =>
        var t := Reached(x, front);
        CallLists(x, t.(assessments := t.assessments[aid := {}]), aid, qs, name);
        LastOfConcat(GivenIn(x, front), GivenBy(x, qs), name);
      case Clear =>
    }
  }

  lemma {:induction false} RunAssessments(x: Texts, ops: seq<Op>, aid: string)
    ensures var t := Reached(x, ops);
            && (aid in t.assessments <==> LastCall(ops, aid).Some?)
            && (aid in t.assessments ==> t.assessments[aid] == Names(GivenBy(x, LastCall(ops, aid).value)))
  {
    if ops != [] {
      var front := ops[..|ops| - 1];
      RunAssessments(x, front, aid);
      match ops[|ops| - 1]
      case Register(a, qs) =>
        var t := Reached(x, front);
        CallNames(x, t.(assessments := t.assessments[a := {}]), a, qs);
        assert {} + Names(GivenBy(x, qs)) == Names(GivenBy(x, qs));
      case Clear =>
    }
  }

  /** What the given names list in the end. */
  function Found(g: seq<Given>, names: set<string>): set<string> {
    set n, h | n in names && LastOf(g, n).Some? && h in LastOf(g, n).value :: h
  }

  lemma {:induction false} FoundIff(g: seq<Given>, names: set<string>, h: string)
    ensures h in Found(g, names) <==> exists m: nat :: m < |g| && g[m].name in names && IsLast(g, g[m].name, m) && h in g[m].hashes
  {
    if h in Found(g, names) {
      var n: string :| n in names && LastOf(g, n).Some? && h in LastOf(g, n).value;
      LastOfIs(g, n);
      var m: nat :| IsLast(g, n, m);
    }
    forall m: nat | m < |g| && IsLast(g, g[m].name, m) ensures LastOf(g, g[m].name) == Some(g[m].hashes) {
      LastOfIs(g, g[m].name);
    }
  }

  /** The scope of a check after any run: for a question, what the last question of its name lists; for an
      assessment, what the last questions of its names list. */
  lemma {:induction false} ScopeOfRun(x: Texts, ops: seq<Op>, aid: string, qid: string)
    ensures qid != "" && LastOf(GivenIn(x, ops), qid).Some? ==> Scope(Reached(x, ops), aid, qid) == LastOf(GivenIn(x, ops), qid).value
    ensures aid != "" && LastCall(ops, aid).Some? ==>
              Scope(Reached(x, ops), aid, "") == Found(GivenIn(x, ops), Names(GivenBy(x, LastCall(ops, aid).value)))
  {
    RunLists(x, ops, qid);
    RunAssessments(x, ops, aid);
    var t := Reached(x, ops);
    if aid != "" && LastCall(ops, aid).Some? {
      forall n ensures Listed(t, n) == if LastOf(GivenIn(x, ops), n).Some? then LastOf(GivenIn(x, ops), n).value else {} {
        RunLists(x, ops, n);
      }
    }
  }

  /** Neither a clear nor a registration of the same assessment. */
  predicate Uninterrupted(after: seq<Op>, aid: string) {
    forall i | 0 <= i < |after| :: after[i].Register? && after[i].aid != aid
  }

  lemma {:induction false} RunSnoc(x: Texts, front: seq<Op>, op: Op, aid: string)
    ensures GivenIn(x, front + [op]) == (match op case Register(_, qs) => GivenIn(x, front) + GivenBy(x, qs) case Clear => [])
    ensures LastCall(front + [op], aid) == (match op case Register(a, qs) => if a == aid then Some(qs) else LastCall(front, aid) case Clear => None)
    ensures Live(x, front + [op]) == (match op case Register(_, qs) => Live(x, front) + NormalisedAll(x, qs) case Clear => {})
  {
    assert (front + [op])[..|front|] == front;
  }

  lemma {:induction false} Associative(a: seq<Given>, b: seq<Given>, c: seq<Given>)
    ensures (a + b) + c == a + (b + c)
  {
  }

  /** Registrations of other assessments add their questions and leave this one's call the last. */
  lemma {:induction false} GivenConcat(x: Texts, a: seq<Op>, b: seq<Op>, aid: string)
    requires Uninterrupted(b, aid)
    ensures GivenIn(x, a + b) == GivenIn(x, a) + GivenIn(x, b) && LastCall(a + b, aid) == LastCall(a, aid)
    decreases |b|
  {
    if b == [] {
      assert a + b == a;
      assert GivenIn(x, b) == [];
      assert GivenIn(x, a) + [] == GivenIn(x, a);
    } else {
      var (front, last) := (b[..|b| - 1], b[|b| - 1]);
      assert b == front + [last] && a + b == (a + front) + [last];
      assert last == b[|front|] && forall i | 0 <= i < |front| :: front[i] == b[i];
      GivenConcat(x, a, front, aid);
      ConcatStep(x, a, front, last, aid);
    }
  }

  lemma {:induction false} ConcatStep(x: Texts, a: seq<Op>, front: seq<Op>, last: Op, aid: string)
    requires last.Register? && last.aid != aid
    requires GivenIn(x, a + front) == GivenIn(x, a) + GivenIn(x, front) && LastCall(a + front, aid) == LastCall(a, aid)
    ensures GivenIn(x, (a + front) + [last]) == GivenIn(x, a) + GivenIn(x, front + [last])
    ensures LastCall((a + front) + [last], aid) == LastCall(a, aid)
  {
    RunSnoc(x, a + front, last, aid);
    RunSnoc(x, front, last, aid);
    Associative(GivenIn(x, a), GivenIn(x, front), GivenBy(x, last.qs));
  }

  lemma {:induction false} GivenSince(x: Texts, before: seq<Op>, aid: string, qs: seq<Question>, after: seq<Op>)
    requires Uninterrupted(after, aid)
    ensures var ops := before + [Register(aid, qs)] + after;
            && LastCall(ops, aid) == Some(qs)
            && GivenIn(x, ops) == GivenIn(x, before) + (GivenBy(x, qs) + GivenIn(x, after))
  {
    RunSnoc(x, before, Register(aid, qs), aid);
    GivenConcat(x, before + [Register(aid, qs)], after, aid);
    Associative(GivenIn(x, before), GivenBy(x, qs), GivenIn(x, after));
  }

  /** The hashes of all answers of an assessment. */
  function AnswersOf(x: Texts, qs: seq<Question>): set<string> {
    var g := GivenBy(x, qs);
    set i, h | 0 <= i < |g| && h in g[i].hashes :: h
  }

  /** Scope of the assessment, in terms of the questions registered from its own registration on. */
  lemma {:induction false} ScopeSince(x: Texts, before: seq<Op>, aid: string, qs: seq<Question>, after: seq<Op>)
    requires aid != "" && Uninterrupted(after, aid)
    ensures Scope(Reached(x, before + [Register(aid, qs)] + after), aid, "") ==
            Found(GivenBy(x, qs) + GivenIn(x, after), Names(GivenBy(x, qs)))
  {
    var (mine, later) := (GivenBy(x, qs), GivenIn(x, after));
    ScopeOfRun(x, before + [Register(aid, qs)] + after, aid, "");
    GivenSince(x, before, aid, qs, after);
    forall n | n in Names(mine) ensures LastOf(GivenIn(x, before) + (mine + later), n) == LastOf(mine + later, n) && LastOf(mine + later, n).Some? {
      LastOfConcat(GivenIn(x, before), mine + later, n);
      LastOfConcat(mine, later, n);
      LastOfIs(mine, n);
    }
  }

  /** When a check scoped to an assessment looks for an answer of it: exactly if some name of the assessment
      is, in the end, that of a question that lists the answer.  (That the answer's own question has lost its
      name is not enough to lose it: another of the assessment's names may have come to list it.) */
  lemma {:induction false} ScopeKeepsAnswerIff(x: Texts, before: seq<Op>, aid: string, qs: seq<Question>, after: seq<Op>, h: string)
    requires aid != "" && Uninterrupted(after, aid)
    ensures var (scope, since) := (Scope(Reached(x, before + [Register(aid, qs)] + after), aid, ""), GivenBy(x, qs) + GivenIn(x, after));
            h in scope <==> exists m: nat :: m < |since| && since[m].name in Names(GivenBy(x, qs)) && IsLast(since, since[m].name, m) && h in since[m].hashes
  {
    ScopeSince(x, before, aid, qs, after);
    FoundIff(GivenBy(x, qs) + GivenIn(x, after), Names(GivenBy(x, qs)), h);
  }

  /** A check scoped to one question looks for all its answers exactly if the last question of its name lists
      them: if no later one takes the name without listing the same hashes. */
  lemma {:induction false} QuestionKeepsAnswersIff(x: Texts, before: seq<Op>, aid: string, qs: seq<Question>, after: seq<Op>, i: nat)
    requires Uninterrupted(after, aid) && i < |GivenBy(x, qs)| && GivenBy(x, qs)[i].name != ""
    ensures var (q, since) := (GivenBy(x, qs)[i], GivenBy(x, qs) + GivenIn(x, after));
            q.hashes <= Scope(Reached(x, before + [Register(aid, qs)] + after), aid, q.name) <==>
            exists m: nat :: IsLast(since, q.name, m) && q.hashes <= since[m].hashes
  {
    var (mine, later) := (GivenBy(x, qs), GivenIn(x, after));
    var (q, since) := (mine[i], mine + later);
    ScopeOfRun(x, before + [Register(aid, qs)] + after, aid, q.name);
    GivenSince(x, before, aid, qs, after);
    LastOfConcat(GivenIn(x, before), since, q.name);
    assert since[i] == q;
    LastOfIs(since, q.name);
  }

  /** From position `n` on no question lists an answer of an earlier one, and neither do the first `n` share any. */
  predicate Apart(g: seq<Given>, n: nat) {
    forall i, j | 0 <= i < j < |g| && i < n :: g[i].hashes !! g[j].hashes
  }

  /** None of the first `n` questions that has answers gives its name to a later one. */
  predicate KeepNames(g: seq<Given>, n: nat) {
    forall i, j | 0 <= i < j < |g| && i < n && g[i].name == g[j].name :: g[i].hashes == {}
  }

  lemma {:induction false} FoundAllIff(g: seq<Given>, n: nat, all: set<string>)
    requires n <= |g| && Apart(g, n)
    requires forall h :: h in all <==> exists i :: 0 <= i < n && h in g[i].hashes
    ensures all <= Found(g, Names(g[..n])) <==> KeepNames(g, n)
  {
    var found := Found(g, Names(g[..n]));
    forall i, j, h | 0 <= i < j < |g| && i < n && g[i].name == g[j].name && h in g[i].hashes ensures h in all && h !in found {
      FoundIff(g, Names(g[..n]), h);
    }
    if all <= found {
      forall i, j | 0 <= i < j < |g| && i < n && g[i].name == g[j].name ensures g[i].hashes == {} {
        assert forall h | h in g[i].hashes :: h in all && h !in found;
      }
    }
    if KeepNames(g, n) {
      forall h | h in all ensures h in found {
        var i: int :| 0 <= i < n && h in g[i].hashes;
        assert g[..n][i].name in Names(g[..n]);
        assert IsLast(g, g[i].name, i);
        LastOfIs(g, g[i].name);
      }
    }
  }

  /** If later questions ask for other things, a check scoped to an assessment looks for all its answers
      exactly if none of its names was given again, in the same call or later. */
  lemma {:induction false} ScopeKeepsAnswersIffNamesKept(x: Texts, before: seq<Op>, aid: string, qs: seq<Question>, after: seq<Op>)
    requires aid != "" && Uninterrupted(after, aid)
    requires Apart(GivenBy(x, qs) + GivenIn(x, after), |GivenBy(x, qs)|)
    ensures AnswersOf(x, qs) <= Scope(Reached(x, before + [Register(aid, qs)] + after), aid, "") <==>
            KeepNames(GivenBy(x, qs) + GivenIn(x, after), |GivenBy(x, qs)|)
  {
    var (mine, since) := (GivenBy(x, qs), GivenBy(x, qs) + GivenIn(x, after));
    ScopeSince(x, before, aid, qs, after);
    assert since[..|mine|] == mine;
    forall h ensures h in AnswersOf(x, qs) <==> exists i :: 0 <= i < |mine| && h in since[i].hashes {
      if h in AnswersOf(x, qs) {
        var i :| 0 <= i < |mine| && h in mine[i].hashes;
        assert h in since[i].hashes;
      }
    }
    FoundAllIff(since, |mine|, AnswersOf(x, qs));
  }

  /** With names of their own, all is well: the scope is the assessment's answers, no more and no less. */
  lemma {:induction false} DistinctNamesScopeExactly(x: Texts, before: seq<Op>, aid: string, qs: seq<Question>, after: seq<Op>)
    requires aid != "" && Uninterrupted(after, aid)
    requires var since := GivenBy(x, qs) + GivenIn(x, after);
             forall i, j | 0 <= i < j < |since| && i < |GivenBy(x, qs)| :: since[i].name != since[j].name
    ensures Scope(Reached(x, before + [Register(aid, qs)] + after), aid, "") == AnswersOf(x, qs)
  {
    var (mine, since) := (GivenBy(x, qs), GivenBy(x, qs) + GivenIn(x, after));
    ScopeSince(x, before, aid, qs, after);
    forall i: nat | i < |mine| ensures LastOf(since, mine[i].name) == Some(mine[i].hashes) {
      assert since[i] == mine[i] && IsLast(since, mine[i].name, i);
      LastOfIs(since, mine[i].name);
    }
    forall n | n in Names(mine) ensures exists i: nat :: i < |mine| && mine[i].name == n {
      var i :| 0 <= i < |mine| && mine[i].name == n;
    }
    assert Found(since, Names(mine)) == AnswersOf(x, qs);
  }

  /* ---------------------------------------------------------------- a leak that is let through */

  /** Of two assessments of one unnamed question each, the second takes the scope of the first. */
  lemma {:induction false} UnnamedTakesScope(x: Texts, first: string, q: Question, second: string, r: Question)
    requires first != "" && first != second && q.id == None && r.id == None
    ensures Scope(Reached(x, [Register(first, [q]), Register(second, [r])]), first, "") == HashesOf(x, r)
  {
    var after := [Register(second, [r])];
    var (mine, later) := (GivenBy(x, [q]), GivenIn(x, after));
    OneQuestion(x, q);
    OneQuestion(x, r);
    RunSnoc(x, [], Register(second, [r]), second);
    assert [] + after == after;
    ScopeSince(x, [], first, [q], after);
    assert [] + [Register(first, [q])] + after == [Register(first, [q]), Register(second, [r])];
    var (n, since) := (x.name(0), mine + later);
    assert since == [Given(n, HashesOf(x, q)), Given(n, HashesOf(x, r))];
    assert IsLast(since, n, 1);
    LastOfIs(since, n);
    assert mine[0].name in Names(mine) && forall k | k in Names(mine) :: k == n;
  }

  /** A prompt that gives away something of the first assessment and nothing of the second is passed by the
      check scoped to the first. */
  lemma {:induction false} ScopedCheckMissesLeak(x: Texts, strict: bool, first: string, q: Question, second: string, r: Question, prompt: string)
    requires first != "" && first != second && q.id == None && r.id == None
    requires !ExactLeak(x, HashesOf(x, r), prompt) && x.revealing(prompt) == []
    requires forall n | n in Normalised(x, TextsOf(r)) :: !(|n| >= 15 && Occurs(x.normalize(prompt), n))
    requires NoCollision(x.hash, Normalised(x, TextsOf(q)) + Normalised(x, TextsOf(r)))
    ensures var t := Reached(x, [Register(first, [q]), Register(second, [r])]);
            Scope(t, first, "") == HashesOf(x, r) && Passes(x, t, strict, Scope(t, first, ""), prompt)
  {
    var ops := [Register(first, [q]), Register(second, [r])];
    UnnamedTakesScope(x, first, q, second, r);
    LiveOfTwo(x, first, q, second, r);
    ReachedIsConsistent(x, ops);
    ListedText(x, Reached(x, ops), Normalised(x, TextsOf(q)) + Normalised(x, TextsOf(r)), r);
  }

  lemma {:induction false} ListedText(x: Texts, t: Tables, live: set<string>, r: Question)
    requires Consistent(x, t, live) && NoCollision(x.hash, live) && Normalised(x, TextsOf(r)) <= live
    ensures forall h | h in HashesOf(x, r) && h in t.answers :: t.answers[h].normalized in Normalised(x, TextsOf(r))
  {
    forall h | h in HashesOf(x, r) && h in t.answers ensures t.answers[h].normalized in Normalised(x, TextsOf(r)) {
      var n :| n in Normalised(x, TextsOf(r)) && x.hash(n) == h;
      assert t.answers[h].normalized == n;
    }
  }

  lemma {:induction false} OneQuestion(x: Texts, q: Question)
    requires q.id == None
    ensures GivenBy(x, [q]) == [Given(x.name(0), HashesOf(x, q))]
  {
    var none: seq<Question> := [];
    assert [q][..0] == none;
    assert GivenBy(x, none) == [] && CountAll(x, none) == 0;
  }

  lemma {:induction false} LiveOfTwo(x: Texts, first: string, q: Question, second: string, r: Question)
    ensures Live(x, [Register(first, [q]), Register(second, [r])]) == Normalised(x, TextsOf(q)) + Normalised(x, TextsOf(r))
  {
    RunSnoc(x, [], Register(first, [q]), first);
    RunSnoc(x, [Register(first, [q])], Register(second, [r]), first);
    assert [] + [Register(first, [q])] == [Register(first, [q])];
    assert [Register(first, [q])] + [Register(second, [r])] == [Register(first, [q]), Register(second, [r])];
    OneNormalised(x, q);
    OneNormalised(x, r);
  }

  lemma {:induction false} OneNormalised(x: Texts, q: Question)
    ensures NormalisedAll(x, [q]) == Normalised(x, TextsOf(q))
  {
    var none: seq<Question> := [];
    assert [q][..0] == none;
    assert NormalisedAll(x, none) == {};
  }

  function Answering(answer: string): Question {
    Question(None, answer, [], "", [])
  }

  /** The prompt gives the text away, as a segment or, if it is long, as a part. */
  predicate GivesAway(x: Texts, prompt: string, text: string) {
    || ExactLeak(x, {x.hash(x.normalize(text))}, prompt)
    || (|x.normalize(text)| >= 15 && Occurs(x.normalize(prompt), x.normalize(text)))
  }

  /** For every text layer and any two answers: a prompt that gives away the first and not the second is rejected
      by the check scoped to the first assessment after its registration, and accepted once the second assessment
      has been registered too. */
  lemma {:induction false} TwoUnnamedQuestionsLeak(x: Texts, strict: bool, first: string, answer: string, second: string, other: string, prompt: string)
    requires first != "" && first != second && Registrable(x, answer) && Registrable(x, other)
    requires GivesAway(x, prompt, answer) && !GivesAway(x, prompt, other) && x.revealing(prompt) == []
    requires NoCollision(x.hash, {x.normalize(answer), x.normalize(other)})
    ensures var (once, twice) := (Reached(x, [Register(first, [Answering(answer)])]),
                                  Reached(x, [Register(first, [Answering(answer)]), Register(second, [Answering(other)])]));
            && !Passes(x, once, strict, Scope(once, first, ""), prompt)
            && Passes(x, twice, strict, Scope(twice, first, ""), prompt)
  {
    TextsOfAnswer(x, None, answer);
    TextsOfAnswer(x, None, other);
    RejectedOnce(x, strict, first, answer, prompt);
    ScopedCheckMissesLeak(x, strict, first, Answering(answer), second, Answering(other), prompt);
  }

  lemma {:induction false} RejectedOnce(x: Texts, strict: bool, first: string, answer: string, prompt: string)
    requires first != "" && Registrable(x, answer) && GivesAway(x, prompt, answer)
    ensures var once := Reached(x, [Register(first, [Answering(answer)])]); !Passes(x, once, strict, Scope(once, first, ""), prompt)
  {
    var (ops, h) := ([Register(first, [Answering(answer)])], x.hash(x.normalize(answer)));
    TextsOfAnswer(x, None, answer);
    OneQuestion(x, Answering(answer));
    ScopeOfOne(x, first, answer);
    ReachedIsConsistent(x, ops);
    RunSnoc(x, [], ops[0], first);
    OneNormalised(x, Answering(answer));
    assert [] + [ops[0]] == ops;
    var t := Reached(x, ops);
    assert t.answers[h].normalized == x.normalize(answer);
  }

  lemma {:induction false} ScopeOfOne(x: Texts, first: string, answer: string)
    requires first != "" && Registrable(x, answer)
    ensures Scope(Reached(x, [Register(first, [Answering(answer)])]), first, "") == {x.hash(x.normalize(answer))}
  {
    TextsOfAnswer(x, None, answer);
    OneQuestion(x, Answering(answer));
    ScopeSince(x, [], first, [Answering(answer)], []);
    assert [] + [Register(first, [Answering(answer)])] + [] == [Register(first, [Answering(answer)])];
    var (mine, n) := (GivenBy(x, [Answering(answer)]), x.name(0));
    assert mine + [] == mine && IsLast(mine, n, 0) && mine[0].name in Names(mine);
    assert forall k | k in Names(mine) :: k == n;
    LastOfIs(mine, n);
  }

  lemma {:induction false} TextsOfAnswer(x: Texts, id: Option<string>, answer: string)
    requires Registrable(x, answer)
    ensures var q := Question(id, answer, [], "", []);
            Normalised(x, TextsOf(q)) == {x.normalize(answer)} && HashesOf(x, q) == {x.hash(x.normalize(answer))}
  {
    var q := Question(id, answer, [], "", []);
    assert TextsOf(q) == [(answer, Correct)];
    assert TextsOf(q)[0].0 == answer;
  }

  function Named(id: string, answer: string): Question {
    Question(Some(id), answer, [], "", [])
  }

  lemma {:induction false} TwoNamed(x: Texts, id: string, a: string, id': string, b: string)
    requires Registrable(x, a) && Registrable(x, b)
    ensures GivenBy(x, [Named(id, a), Named(id', b)]) == [Given(id, {x.hash(x.normalize(a))}), Given(id', {x.hash(x.normalize(b))})]
  {
    var (q, r) := (Named(id, a), Named(id', b));
    var none: seq<Question> := [];
    TextsOfAnswer(x, Some(id), a);
    TextsOfAnswer(x, Some(id'), b);
    assert [q, r][..1] == [q] && [q][..0] == none;
    assert GivenBy(x, none) == [];
    assert GivenBy(x, [q]) == [Given(id, HashesOf(x, q))];
    assert GivenBy(x, [q, r]) == GivenBy(x, [q]) + [Given(id', HashesOf(x, r))];
  }

  /** Both names of an assessment taken over by questions that do not list their answers, and yet nothing lost:
      a later assessment asks the same two questions with the names exchanged. */
  lemma {:induction false} ExchangedNamesKeepScope(x: Texts, first: string, second: string, id: string, a: string, id': string, b: string)
    requires first != "" && first != second && id != id' && Registrable(x, a) && Registrable(x, b)
    ensures var qs := [Named(id, a), Named(id', b)];
            AnswersOf(x, qs) <= Scope(Reached(x, [Register(first, qs), Register(second, [Named(id, b), Named(id', a)])]), first, "")
  {
    var (qs, rs) := ([Named(id, a), Named(id', b)], [Named(id, b), Named(id', a)]);
    var (h, k, after) := (x.hash(x.normalize(a)), x.hash(x.normalize(b)), [Register(second, rs)]);
    TwoNamed(x, id, a, id', b);
    TwoNamed(x, id, b, id', a);
    OneCall(x, second, rs);
    AnswersOfTwo(x, qs, id, h, id', k);
    ScopeSince(x, [], first, qs, after);
    Exchanged(id, h, id', k);
    assert [] + [Register(first, qs)] + after == [Register(first, qs), Register(second, rs)];
  }

  lemma {:induction false} OneCall(x: Texts, aid: string, qs: seq<Question>)
    ensures GivenIn(x, [Register(aid, qs)]) == GivenBy(x, qs)
  {
    RunSnoc(x, [], Register(aid, qs), aid);
    assert [] + [Register(aid, qs)] == [Register(aid, qs)];
    assert [] + GivenBy(x, qs) == GivenBy(x, qs);
  }

  lemma {:induction false} AnswersOfTwo(x: Texts, qs: seq<Question>, id: string, h: string, id': string, k: string)
    requires GivenBy(x, qs) == [Given(id, {h}), Given(id', {k})]
    ensures AnswersOf(x, qs) <= {h, k}
  {
  }

  lemma {:induction false} Exchanged(id: string, h: string, id': string, k: string)
    requires id != id'
    ensures var mine := [Given(id, {h}), Given(id', {k})];
            {h, k} <= Found(mine + [Given(id, {k}), Given(id', {h})], Names(mine))
  {
    var mine := [Given(id, {h}), Given(id', {k})];
    var since := mine + [Given(id, {k}), Given(id', {h})];
    assert mine[0].name in Names(mine) && mine[1].name in Names(mine);
    assert IsLast(since, id, 2) && IsLast(since, id', 3);
    LastOfIs(since, id);
    LastOfIs(since, id');
  }
}
