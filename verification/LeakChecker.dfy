/** lib/leak_checker.py: the registry of answers, and the check of prompts against it.  LeakScope.dfy says
    what a scope holds after any run of registrations. */
module LeakChecker {
  import opened Hashing
  import opened Substring

  /** Given from outside: text normalisation, the truncated digest, `str.strip`, splitting a prompt into
      segments, the reveal patterns that match outside an explanation, and the default question names. */
  datatype Texts = Texts(normalize: string -> string, hash: string -> string, strip: string -> string,
                         segments: string -> seq<string>, revealing: string -> seq<string>, name: nat -> string)

  datatype Question = Question(id: Option<string>, correctAnswer: string, correctAnswers: seq<string>, explanation: string, whyIncorrect: seq<string>)

  datatype Kind = Correct | Explanation | Distractor

  datatype Answer = Answer(questionId: string, assessmentId: string, answerHash: string, normalized: string, kind: Kind)

  /** `_answer_registry`, `_question_answers` and `_assessment_questions` */
  datatype Tables = Tables(answers: map<string, Answer>, questions: map<string, set<string>>, assessments: map<string, set<string>>)

  const empty := Tables(map[], map[], map[])

  /* ---------------------------------------------------------------- registration */

  /** Texts of fewer than three characters are not registered. */
  predicate Registrable(x: Texts, text: string) {
    text != "" && |x.strip(text)| >= 3
  }

  /** Everything a question wants registered, in order. */
  function TextsOf(q: Question): seq<(string, Kind)> {
    var correct := if q.correctAnswer != "" then [q.correctAnswer] else q.correctAnswers;
    seq(|correct|, i requires 0 <= i < |correct| => (correct[i], Correct)) +
    (if q.explanation != "" then [(q.explanation, Explanation)] else []) +
    seq(|q.whyIncorrect|, i requires 0 <= i < |q.whyIncorrect| => (q.whyIncorrect[i], Distractor))
  }

  function Listed(t: Tables, qid: string): set<string> {
    if qid in t.questions then t.questions[qid] else {}
  }

  function WithAnswer(x: Texts, t: Tables, aid: string, qid: string, text: string, kind: Kind): Tables {
    var n := x.normalize(text);
    var h := x.hash(n);
    t.(answers := t.answers[h := Answer(qid, aid, h, n, kind)], questions := t.questions[qid := Listed(t, qid) + {h}])
  }

  function WithTexts(x: Texts, t: Tables, aid: string, qid: string, texts: seq<(string, Kind)>): (r: Tables)
    ensures r.assessments == t.assessments
  {
    if texts == [] then t
    else
      var (text, kind) := texts[|texts| - 1];
      var front := WithTexts(x, t, aid, qid, texts[..|texts| - 1]);
      if Registrable(x, text) then WithAnswer(x, front, aid, qid, text, kind) else front
  }

  function CountOf(x: Texts, texts: seq<(string, Kind)>): nat {
    if texts == [] then 0 else CountOf(x, texts[..|texts| - 1]) + if Registrable(x, texts[|texts| - 1].0) then 1 else 0
  }

  /** A question starts from an empty list, even if its name was in use. */
  function WithQuestion(x: Texts, t: Tables, aid: string, qid: string, q: Question): (r: Tables)
    requires aid in t.assessments
    ensures r.assessments == t.assessments[aid := t.assessments[aid] + {qid}]
  {
    WithTexts(x, Started(t, aid, qid), aid, qid, TextsOf(q))
  }

  function Started(t: Tables, aid: string, qid: string): Tables
    requires aid in t.assessments
  {
    t.(assessments := t.assessments[aid := t.assessments[aid] + {qid}], questions := t.questions[qid := {}])
  }

  /** A question without a name is called after the number of answers registered before it in this call. */
  function NameOf(x: Texts, q: Question, count: nat): string {
    if q.id.Some? then q.id.value else x.name(count)
  }

  function WithQuestions(x: Texts, t: Tables, aid: string, qs: seq<Question>): (r: (Tables, nat))
    requires aid in t.assessments
    ensures aid in r.0.assessments
  {
    if qs == [] then (t, 0)
    else
      var (front, count) := WithQuestions(x, t, aid, qs[..|qs| - 1]);
      var q := qs[|qs| - 1];
      (WithQuestion(x, front, aid, NameOf(x, q, count), q), count + CountOf(x, TextsOf(q)))
  }

  lemma {:induction false} QuestionsSnoc(x: Texts, t: Tables, aid: string, front: seq<Question>, q: Question)
    requires aid in t.assessments
    ensures var (mid, count) := WithQuestions(x, t, aid, front);
            WithQuestions(x, t, aid, front + [q]) == (WithQuestion(x, mid, aid, NameOf(x, q, count), q), count + CountOf(x, TextsOf(q)))
  {
    assert (front + [q])[..|front|] == front;
  }

  /** Effect of `register_assessment`. */
  function Registered(x: Texts, t: Tables, aid: string, qs: seq<Question>): (Tables, nat) {
    WithQuestions(x, t.(assessments := t.assessments[aid := {}]), aid, qs)
  }

  /* ---------------------------------------------------------------- what a registration registers */

  /** The question gives this text to be registered as this kind of answer: its correct answer or, without one, each
      of its correct answers, its explanation, and why each distractor is wrong, if at least three characters
      are left of it. */
  ghost predicate Wants(x: Texts, q: Question, text: string, kind: Kind) {
    && text != "" && |x.strip(text)| >= 3
    && match kind
       case Correct => if q.correctAnswer != "" then text == q.correctAnswer else text in q.correctAnswers
       case Explanation => text == q.explanation
       case Distractor => text in q.whyIncorrect
  }

  lemma {:induction false} WantsAre(x: Texts, q: Question, text: string, kind: Kind)
    ensures Wants(x, q, text, kind) <==> Registrable(x, text) && exists i :: 0 <= i < |TextsOf(q)| && TextsOf(q)[i] == (text, kind)
  {
    var (all, correct) := (TextsOf(q), if q.correctAnswer != "" then [q.correctAnswer] else q.correctAnswers);
    var more := |correct| + if q.explanation != "" then 1 else 0;
    assert |all| == more + |q.whyIncorrect|;
    forall i | 0 <= i < |all|
      ensures all[i] == if i < |correct| then (correct[i], Correct) else if i < more then (q.explanation, Explanation) else (q.whyIncorrect[i - more], Distractor)
    {
    }
    if Wants(x, q, text, kind) {
      match kind
      case Correct =>
        var i :| 0 <= i < |correct| && correct[i] == text;
        assert all[i] == (text, kind);
      case Explanation =>
        assert all[|correct|] == (text, kind);
      case Distractor =>
        var i :| 0 <= i < |q.whyIncorrect| && q.whyIncorrect[i] == text;
        assert all[more + i] == (text, kind);
    }
  }

  /** Position `i` is a text to be registered under this hash. */
  predicate Hit(x: Texts, texts: seq<(string, Kind)>, i: nat, h: string) {
    i < |texts| && Registrable(x, texts[i].0) && x.hash(x.normalize(texts[i].0)) == h
  }

  predicate LastHit(x: Texts, texts: seq<(string, Kind)>, i: nat, h: string) {
    Hit(x, texts, i, h) && forall k: nat | i < k < |texts| :: !Hit(x, texts, k, h)
  }

  /** Of the texts with one hash the last one is kept; .. */
  lemma {:induction false} TextsAnswers(x: Texts, t: Tables, aid: string, qid: string, texts: seq<(string, Kind)>, i: nat, h: string)
    requires LastHit(x, texts, i, h)
    ensures var r := WithTexts(x, t, aid, qid, texts).answers; h in r && r[h] == Answer(qid, aid, h, x.normalize(texts[i].0), texts[i].1)
  {
    var n := |texts| - 1;
    if i < n {
      assert !Hit(x, texts, n, h);
      forall k: nat | k < n ensures Hit(x, texts[..n], k, h) <==> Hit(x, texts, k, h) {}
      TextsAnswers(x, t, aid, qid, texts[..n], i, h);
    }
  }

  /** .. without any, what was there stays. */
  lemma {:induction false} TextsMiss(x: Texts, t: Tables, aid: string, qid: string, texts: seq<(string, Kind)>, h: string)
    requires forall i: nat | i < |texts| :: !Hit(x, texts, i, h)
    ensures var r := WithTexts(x, t, aid, qid, texts).answers; (h in r <==> h in t.answers) && (h in r ==> r[h] == t.answers[h])
  {
    if texts != [] {
      var n := |texts| - 1;
      assert !Hit(x, texts, n, h);
      forall k: nat | k < n ensures !Hit(x, texts[..n], k, h) {
        assert !Hit(x, texts, k, h);
      }
      TextsMiss(x, t, aid, qid, texts[..n], h);
    }
  }

  lemma {:induction false} HasLastHit(x: Texts, texts: seq<(string, Kind)>, i: nat, h: string) returns (last: nat)
    requires Hit(x, texts, i, h)
    ensures i <= last && LastHit(x, texts, last, h)
    decreases |texts| - i
  {
    if k: nat :| i < k < |texts| && Hit(x, texts, k, h) {
      last := HasLastHit(x, texts, k, h);
    } else {
      last := i;
    }
  }

  function Rank(kind: Kind): nat {
    match kind case Correct => 0 case Explanation => 1 case Distractor => 2
  }

  lemma {:induction false} TextsRanked(q: Question, i: nat, k: nat)
    requires i <= k < |TextsOf(q)|
    ensures Rank(TextsOf(q)[i].1) <= Rank(TextsOf(q)[k].1)
  {
  }

  /** Of the wanted texts of `qs` with this hash none comes after `text` of question `j`: none is of a later
      question, nor of a later kind of the same one. */
  ghost predicate Decides(x: Texts, qs: seq<Question>, h: string, j: nat, text: string, kind: Kind) {
    && j < |qs| && Wants(x, qs[j], text, kind) && x.hash(x.normalize(text)) == h
    && (forall other, k | Wants(x, qs[j], other, k) && x.hash(x.normalize(other)) == h :: Rank(k) <= Rank(kind))
    && forall i: nat, other, k | j < i < |qs| && Wants(x, qs[i], other, k) :: x.hash(x.normalize(other)) != h
  }

  ghost predicate WantedUnder(x: Texts, q: Question, h: string) {
    exists text, kind :: Wants(x, q, text, kind) && x.hash(x.normalize(text)) == h
  }

  /** One question, one hash. */
  lemma {:induction false} QuestionAnswers(x: Texts, t: Tables, aid: string, qid: string, q: Question, h: string) returns (text: string, kind: Kind)
    requires aid in t.assessments && WantedUnder(x, q, h)
    ensures Wants(x, q, text, kind) && x.hash(x.normalize(text)) == h
    ensures forall other, k | Wants(x, q, other, k) && x.hash(x.normalize(other)) == h :: Rank(k) <= Rank(kind)
    ensures var r := WithQuestion(x, t, aid, qid, q).answers; h in r && r[h] == Answer(qid, aid, h, x.normalize(text), kind)
  {
    var texts := TextsOf(q);
    var some, any :| Wants(x, q, some, any) && x.hash(x.normalize(some)) == h;
    WantsAre(x, q, some, any);
    var i: nat :| i < |texts| && texts[i] == (some, any);
    assert Hit(x, texts, i, h);
    var last := HasLastHit(x, texts, i, h);
    TextsAnswers(x, Started(t, aid, qid), aid, qid, texts, last, h);
    text, kind := texts[last].0, texts[last].1;
    WantsAre(x, q, text, kind);
    forall other, k | Wants(x, q, other, k) && x.hash(x.normalize(other)) == h ensures Rank(k) <= Rank(kind) {
      WantsAre(x, q, other, k);
      var p: nat :| p < |texts| && texts[p] == (other, k);
      assert Hit(x, texts, p, h);
      TextsRanked(q, p, last);
    }
  }

  lemma {:induction false} QuestionLeaves(x: Texts, t: Tables, aid: string, qid: string, q: Question, h: string)
    requires aid in t.assessments && !WantedUnder(x, q, h)
    ensures var r := WithQuestion(x, t, aid, qid, q).answers; (h in r <==> h in t.answers) && (h in r ==> r[h] == t.answers[h])
  {
    var texts := TextsOf(q);
    forall i: nat | i < |texts| ensures !Hit(x, texts, i, h) {
      WantsAre(x, q, texts[i].0, texts[i].1);
    }
    TextsMiss(x, Started(t, aid, qid), aid, qid, texts, h);
  }

  ghost predicate WantedByOne(x: Texts, qs: seq<Question>, h: string) {
    exists j :: 0 <= j < |qs| && WantedUnder(x, qs[j], h)
  }

  /** What a registration leaves under a hash that some question gives an answer for: the last such answer, with its
      kind and the name of its question; .. */
  lemma {:induction false} RegisteredAre(x: Texts, t: Tables, aid: string, qs: seq<Question>, h: string) returns (j: nat, text: string, kind: Kind)
    requires aid in t.assessments && WantedByOne(x, qs, h)
    ensures Decides(x, qs, h, j, text, kind)
    ensures var r := WithQuestions(x, t, aid, qs).0.answers;
            && h in r
            && r[h] == Answer(if qs[j].id.Some? then qs[j].id.value else x.name(WithQuestions(x, t, aid, qs[..j]).1), aid, h, x.normalize(text), kind)
  {
    var (front, q) := (qs[..|qs| - 1], qs[|qs| - 1]);
    var (mid, count) := WithQuestions(x, t, aid, front);
    if WantedUnder(x, q, h) {
      text, kind := QuestionAnswers(x, mid, aid, NameOf(x, q, count), q, h);
      j := |front|;
    } else {
      EarlierWants(x, qs, h);
      j, text, kind := RegisteredAre(x, t, aid, front, h);
      QuestionLeaves(x, mid, aid, NameOf(x, q, count), q, h);
      EarlierDecides(x, qs, h, j, text, kind);
      assert qs[..j] == front[..j];
    }
  }

  /** .. and under every other hash what was there before. */
  lemma {:induction false} OthersStay(x: Texts, t: Tables, aid: string, qs: seq<Question>, h: string)
    requires aid in t.assessments && !WantedByOne(x, qs, h)
    ensures var r := WithQuestions(x, t, aid, qs).0.answers; (h in r <==> h in t.answers) && (h in r ==> r[h] == t.answers[h])
  {
    if qs != [] {
      var (front, q) := (qs[..|qs| - 1], qs[|qs| - 1]);
      var (mid, count) := WithQuestions(x, t, aid, front);
      assert !WantedUnder(x, q, h);
      EarlierWants(x, qs, h);
      OthersStay(x, t, aid, front, h);
      QuestionLeaves(x, mid, aid, NameOf(x, q, count), q, h);
    }
  }

  lemma {:induction false} EarlierWants(x: Texts, qs: seq<Question>, h: string)
    requires qs != [] && !WantedUnder(x, qs[|qs| - 1], h)
    ensures WantedByOne(x, qs, h) <==> WantedByOne(x, qs[..|qs| - 1], h)
  {
    var front := qs[..|qs| - 1];
    if WantedByOne(x, qs, h) {
      var j :| 0 <= j < |qs| && WantedUnder(x, qs[j], h);
      assert front[j] == qs[j];
    }
    if WantedByOne(x, front, h) {
      var j :| 0 <= j < |front| && WantedUnder(x, front[j], h);
      assert qs[j] == front[j];
    }
  }

  /** A last question that gives nothing under the hash decides nothing. */
  lemma {:induction false} EarlierDecides(x: Texts, qs: seq<Question>, h: string, j: nat, text: string, kind: Kind)
    requires qs != [] && !WantedUnder(x, qs[|qs| - 1], h) && Decides(x, qs[..|qs| - 1], h, j, text, kind)
    ensures Decides(x, qs, h, j, text, kind)
  {
    var front := qs[..|qs| - 1];
    assert qs[j] == front[j];
    forall i: nat, other, k | j < i < |qs| && Wants(x, qs[i], other, k) ensures x.hash(x.normalize(other)) != h {
      if i < |front| { assert qs[i] == front[i]; }
    }
  }

  lemma {:induction false} CountConcat(x: Texts, a: seq<(string, Kind)>, b: seq<(string, Kind)>)
    ensures CountOf(x, a + b) == CountOf(x, a) + CountOf(x, b)
  {
    if b == [] {
      assert a + b == a;
    } else {
      CountConcat(x, a, b[..|b| - 1]);
      assert (a + b)[..|a + b| - 1] == a + b[..|b| - 1];
    }
  }

  /** Every answer some question gives is registered, and as the kind it is given as unless another with its hash is
      given as another kind. */
  lemma {:induction false} RegistersAll(x: Texts, t: Tables, aid: string, qs: seq<Question>, q: Question, text: string, kind: Kind)
    requires aid in t.assessments && q in qs && Wants(x, q, text, kind)
    ensures var (r, h) := (WithQuestions(x, t, aid, qs).0.answers, x.hash(x.normalize(text)));
            && h in r && r[h].assessmentId == aid
            && ((forall p, other, k | p in qs && Wants(x, p, other, k) && x.hash(x.normalize(other)) == h :: k == kind) ==> r[h].kind == kind)
  {
    var h := x.hash(x.normalize(text));
    var i :| 0 <= i < |qs| && qs[i] == q;
    assert WantedUnder(x, qs[i], h);
    var j, last, of := RegisteredAre(x, t, aid, qs, h);
    assert qs[j] in qs;
  }

  /** Nothing else is: an entry is as before or that of an answer given. */
  lemma {:induction false} RegistersOnly(x: Texts, t: Tables, aid: string, qs: seq<Question>, h: string)
    requires aid in t.assessments && h in WithQuestions(x, t, aid, qs).0.answers
    ensures var a := WithQuestions(x, t, aid, qs).0.answers[h];
            || (h in t.answers && a == t.answers[h])
            || exists q, text :: q in qs && Wants(x, q, text, a.kind) && a.normalized == x.normalize(text) && x.hash(a.normalized) == h
  {
    if WantedByOne(x, qs, h) {
      var j, text, kind := RegisteredAre(x, t, aid, qs, h);
      assert qs[j] in qs;
    } else {
      OthersStay(x, t, aid, qs, h);
    }
  }

  /** On the fields of the questions: what a registration registers, and that it is all. */
  lemma {:induction false} RegistrationMeans(x: Texts, t: Tables, aid: string, qs: seq<Question>)
    ensures var r := Registered(x, t, aid, qs).0.answers;
            && (forall q | q in qs && q.correctAnswer != "" && |x.strip(q.correctAnswer)| >= 3 :: x.hash(x.normalize(q.correctAnswer)) in r)
            && (forall q, a | q in qs && q.correctAnswer == "" && a in q.correctAnswers && a != "" && |x.strip(a)| >= 3 :: x.hash(x.normalize(a)) in r)
            && (forall q | q in qs && q.explanation != "" && |x.strip(q.explanation)| >= 3 :: x.hash(x.normalize(q.explanation)) in r)
            && (forall q, w | q in qs && w in q.whyIncorrect && w != "" && |x.strip(w)| >= 3 :: x.hash(x.normalize(w)) in r)
            && forall h | h in r ::
                 || (h in t.answers && r[h] == t.answers[h])
                 || exists q, text :: q in qs && Wants(x, q, text, r[h].kind) && r[h].normalized == x.normalize(text)
  {
    var begun := t.(assessments := t.assessments[aid := {}]);
    var r := WithQuestions(x, begun, aid, qs).0.answers;
    assert r == Registered(x, t, aid, qs).0.answers;
    forall q, text, kind | q in qs && Wants(x, q, text, kind) ensures x.hash(x.normalize(text)) in r {
      RegistersAll(x, begun, aid, qs, q, text, kind);
    }
    forall q, a | q in qs && q.correctAnswer == "" && a in q.correctAnswers && a != "" && |x.strip(a)| >= 3 ensures x.hash(x.normalize(a)) in r {
      assert Wants(x, q, a, Correct);
    }
    forall q | q in qs && q.correctAnswer != "" && |x.strip(q.correctAnswer)| >= 3 ensures x.hash(x.normalize(q.correctAnswer)) in r {
      assert Wants(x, q, q.correctAnswer, Correct);
    }
    forall q | q in qs && q.explanation != "" && |x.strip(q.explanation)| >= 3 ensures x.hash(x.normalize(q.explanation)) in r {
      assert Wants(x, q, q.explanation, Explanation);
    }
    forall q, w | q in qs && w in q.whyIncorrect && w != "" && |x.strip(w)| >= 3 ensures x.hash(x.normalize(w)) in r {
      assert Wants(x, q, w, Distractor);
    }
    forall h | h in r
      ensures (h in t.answers && r[h] == t.answers[h]) || exists q, text :: q in qs && Wants(x, q, text, r[h].kind) && r[h].normalized == x.normalize(text)
    {
      RegistersOnly(x, begun, aid, qs, h);
    }
  }

  ghost function LongEnough(x: Texts, given: seq<string>, n: nat): set<int>
    requires n <= |given|
  {
    set i | 0 <= i < n && given[i] != "" && |x.strip(given[i])| >= 3
  }

  lemma {:induction false} LongEnoughSnoc(x: Texts, given: seq<string>, n: nat)
    requires n < |given|
    ensures |LongEnough(x, given, n + 1)| == |LongEnough(x, given, n)| + if given[n] != "" && |x.strip(given[n])| >= 3 then 1 else 0
  {
    var (more, fewer) := (LongEnough(x, given, n + 1), LongEnough(x, given, n));
    var newest: set<int> := if given[n] != "" && |x.strip(given[n])| >= 3 then {n} else {};
    forall i: int ensures i in more <==> i in fewer + newest {
      if i < n {
        assert i in more <==> i in fewer;
      }
    }
    assert more == fewer + newest;
  }

  lemma {:induction false} CountIsSize(x: Texts, texts: seq<(string, Kind)>, given: seq<string>, n: nat)
    requires |texts| == |given| && n <= |given| && forall i | 0 <= i < |given| :: texts[i].0 == given[i]
    ensures CountOf(x, texts[..n]) == |LongEnough(x, given, n)|
  {
    if n > 0 {
      CountIsSize(x, texts, given, n - 1);
      assert texts[..n][..n - 1] == texts[..n - 1];
      LongEnoughSnoc(x, given, n - 1);
    }
  }

  /** The number a question adds to the count: one for each text it gives, as often as it gives it. */
  lemma {:induction false} CountIs(x: Texts, t: Tables, aid: string, front: seq<Question>, q: Question)
    requires aid in t.assessments
    ensures WithQuestions(x, t, aid, []).1 == 0
    ensures WithQuestions(x, t, aid, front + [q]).1 == WithQuestions(x, t, aid, front).1 +
              (if q.correctAnswer != "" then if |x.strip(q.correctAnswer)| >= 3 then 1 else 0
               else |set i | 0 <= i < |q.correctAnswers| && q.correctAnswers[i] != "" && |x.strip(q.correctAnswers[i])| >= 3|) +
              (if q.explanation != "" && |x.strip(q.explanation)| >= 3 then 1 else 0) +
              |set i | 0 <= i < |q.whyIncorrect| && q.whyIncorrect[i] != "" && |x.strip(q.whyIncorrect[i])| >= 3|
  {
    QuestionsSnoc(x, t, aid, front, q);
    CountOfQuestion(x, q);
  }

  lemma {:induction false} CountOfQuestion(x: Texts, q: Question)
    ensures CountOf(x, TextsOf(q)) ==
              (if q.correctAnswer != "" then if |x.strip(q.correctAnswer)| >= 3 then 1 else 0
               else |set i | 0 <= i < |q.correctAnswers| && q.correctAnswers[i] != "" && |x.strip(q.correctAnswers[i])| >= 3|) +
              (if q.explanation != "" && |x.strip(q.explanation)| >= 3 then 1 else 0) +
              |set i | 0 <= i < |q.whyIncorrect| && q.whyIncorrect[i] != "" && |x.strip(q.whyIncorrect[i])| >= 3|
  {
    var given := if q.correctAnswer != "" then [q.correctAnswer] else q.correctAnswers;
    var correct := seq(|given|, i requires 0 <= i < |given| => (given[i], Correct));
    var explained := if q.explanation != "" then [(q.explanation, Explanation)] else [];
    var wrong := seq(|q.whyIncorrect|, i requires 0 <= i < |q.whyIncorrect| => (q.whyIncorrect[i], Distractor));
    assert TextsOf(q) == correct + explained + wrong;
    CountConcat(x, correct + explained, wrong);
    CountConcat(x, correct, explained);
    CountIsSize(x, wrong, q.whyIncorrect, |wrong|);
    assert wrong[..|wrong|] == wrong && correct[..|correct|] == correct;
    if q.correctAnswer == "" {
      CountIsSize(x, correct, given, |correct|);
    } else {
      CountOfOne(x, correct);
    }
    if q.explanation != "" {
      CountOfOne(x, explained);
    }
  }

  lemma {:induction false} CountOfOne(x: Texts, texts: seq<(string, Kind)>)
    requires |texts| == 1
    ensures CountOf(x, texts) == if texts[0].0 != "" && |x.strip(texts[0].0)| >= 3 then 1 else 0
  {
    assert texts[..0] == [];
  }

  /* ---------------------------------------------------------------- whole runs */

  datatype Op = Register(aid: string, qs: seq<Question>) | Clear

  function Reached(x: Texts, ops: seq<Op>): Tables {
    if ops == [] then empty
    else
      match ops[|ops| - 1]
      case Register(aid, qs) => Registered(x, Reached(x, ops[..|ops| - 1]), aid, qs).0
      case Clear => empty
  }

  /** The normalised texts that some question wants registered. */
  function Normalised(x: Texts, texts: seq<(string, Kind)>): set<string> {
    set i | 0 <= i < |texts| && Registrable(x, texts[i].0) :: x.normalize(texts[i].0)
  }

  function NormalisedAll(x: Texts, qs: seq<Question>): set<string> {
    if qs == [] then {} else NormalisedAll(x, qs[..|qs| - 1]) + Normalised(x, TextsOf(qs[|qs| - 1]))
  }

  /** The normalised answers registered since the last clear. */
  function Live(x: Texts, ops: seq<Op>): set<string> {
    if ops == [] then {}
    else
      match ops[|ops| - 1]
      case Register(_, qs) => Live(x, ops[..|ops| - 1]) + NormalisedAll(x, qs)
      case Clear => {}
  }

  /** Every hash listed under a question is in the registry, whose entries hash to their keys and are
      exactly those of the given answers, up to collisions. */
  ghost predicate Consistent(x: Texts, t: Tables, live: set<string>) {
    && (forall q | q in t.questions :: t.questions[q] <= t.answers.Keys)
    && (forall h | h in t.answers :: t.answers[h].answerHash == h && t.answers[h].normalized in live && x.hash(t.answers[h].normalized) == h)
    && (forall a | a in live :: x.hash(a) in t.answers)
  }

  lemma {:induction false} TextsKeepConsistent(x: Texts, t: Tables, live: set<string>, aid: string, qid: string, texts: seq<(string, Kind)>)
    requires Consistent(x, t, live)
    ensures Consistent(x, WithTexts(x, t, aid, qid, texts), live + Normalised(x, texts))
  {
    if texts == [] {
      assert live + Normalised(x, texts) == live;
    } else {
      var (front, last) := (texts[..|texts| - 1], texts[|texts| - 1].0);
      assert texts == front + [texts[|texts| - 1]];
      TextsKeepConsistent(x, t, live, aid, qid, front);
      if Registrable(x, last) {
        assert Normalised(x, texts) == Normalised(x, front) + {x.normalize(last)};
        assert live + Normalised(x, texts) == live + Normalised(x, front) + {x.normalize(last)};
      } else {
        assert Normalised(x, texts) == Normalised(x, front);
      }
    }
  }

  lemma {:induction false} QuestionsKeepConsistent(x: Texts, t: Tables, live: set<string>, aid: string, qs: seq<Question>)
    requires aid in t.assessments && Consistent(x, t, live)
    ensures Consistent(x, WithQuestions(x, t, aid, qs).0, live + NormalisedAll(x, qs))
  {
    if qs == [] {
      assert live + NormalisedAll(x, qs) == live;
    } else {
      var (front, q) := (qs[..|qs| - 1], qs[|qs| - 1]);
      QuestionsKeepConsistent(x, t, live, aid, front);
      var (mid, count) := WithQuestions(x, t, aid, front);
      var qid := NameOf(x, q, count);
      var start := Started(mid, aid, qid);
      TextsKeepConsistent(x, start, live + NormalisedAll(x, front), aid, qid, TextsOf(q));
      assert live + NormalisedAll(x, qs) == live + NormalisedAll(x, front) + Normalised(x, TextsOf(q));
    }
  }

  /** Hence no look-up of a listed hash fails, after any run of registrations and clears. */
  lemma {:induction false} ReachedIsConsistent(x: Texts, ops: seq<Op>)
    ensures Consistent(x, Reached(x, ops), Live(x, ops))
  {
    if ops != [] {
      var front := ops[..|ops| - 1];
      ReachedIsConsistent(x, front);
      match ops[|ops| - 1]
      case Register(aid, qs) =>
        var t := Reached(x, front);
        QuestionsKeepConsistent(x, t.(assessments := t.assessments[aid := {}]), Live(x, front), aid, qs);
      case Clear =>
    }
  }

  /** A registered text is live until a clear. */
  lemma {:induction false} WantedIsLive(x: Texts, before: seq<Op>, aid: string, qs: seq<Question>, after: seq<Op>, q: Question, text: string, kind: Kind)
    requires q in qs && Wants(x, q, text, kind) && Clear !in after
    ensures x.normalize(text) in Live(x, before + [Register(aid, qs)] + after)
  {
    var ops := before + [Register(aid, qs)] + after;
    if after == [] {
      assert ops[..|ops| - 1] == before;
      WantedIsNormalised(x, qs, q, text, kind);
    } else {
      assert ops[..|ops| - 1] == before + [Register(aid, qs)] + after[..|after| - 1];
      WantedIsLive(x, before, aid, qs, after[..|after| - 1], q, text, kind);
      assert after[|after| - 1] in after;
    }
  }

  lemma {:induction false} WantedIsNormalised(x: Texts, qs: seq<Question>, q: Question, text: string, kind: Kind)
    requires q in qs && Wants(x, q, text, kind)
    ensures x.normalize(text) in NormalisedAll(x, qs)
  {
    var (front, last) := (qs[..|qs| - 1], qs[|qs| - 1]);
    assert qs == front + [last];
    if q == last {
      WantsAre(x, q, text, kind);
      var i :| 0 <= i < |TextsOf(q)| && TextsOf(q)[i] == (text, kind);
      assert TextsOf(q)[i].0 == text;
    } else {
      WantedIsNormalised(x, front, q, text, kind);
    }
  }

  /* ---------------------------------------------------------------- checking a prompt */

  /** The hashes a check looks for: those of the question if it is known, else those of the assessment's
      questions if that is known, else all. */
  function Scope(t: Tables, aid: string, qid: string): set<string> {
    if qid != "" && qid in t.questions then t.questions[qid]
    else if aid != "" && aid in t.assessments then set q, h | q in t.assessments[aid] && h in Listed(t, q) :: h
    else t.answers.Keys
  }

  predicate ExactLeak(x: Texts, hashes: set<string>, prompt: string) {
    exists s | s in x.segments(prompt) :: x.hash(x.normalize(s)) in hashes
  }

  predicate SubstringLeak(x: Texts, t: Tables, hashes: set<string>, prompt: string) {
    exists h | h in hashes && h in t.answers :: |t.answers[h].normalized| >= 15 && Occurs(x.normalize(prompt), t.answers[h].normalized)
  }

  /** What makes a prompt pass: strictly, no leak of any sort; otherwise no critical or high one. */
  predicate Passes(x: Texts, t: Tables, strict: bool, hashes: set<string>, prompt: string) {
    !ExactLeak(x, hashes, prompt) && !SubstringLeak(x, t, hashes, prompt) && (strict ==> x.revealing(prompt) == [])
  }

  /** The verdict, written out: no segment of the prompt has the hash of an answer looked for, no answer looked for of
      15 characters or more is a part of it and, when strict, no pattern matches. */
  lemma {:induction false} PassesMeans(x: Texts, t: Tables, strict: bool, aid: string, qid: string, prompt: string)
    ensures var hashes := if qid != "" && qid in t.questions then t.questions[qid]
                          else if aid != "" && aid in t.assessments then set q, h | q in t.assessments[aid] && q in t.questions && h in t.questions[q] :: h
                          else t.answers.Keys;
            Passes(x, t, strict, Scope(t, aid, qid), prompt) <==>
              && (forall i | 0 <= i < |x.segments(prompt)| :: x.hash(x.normalize(x.segments(prompt)[i])) !in hashes)
              && (forall h, i, j | h in hashes && h in t.answers && |t.answers[h].normalized| >= 15 && 0 <= i <= j <= |x.normalize(prompt)| ::
                    x.normalize(prompt)[i..j] != t.answers[h].normalized)
              && (strict ==> x.revealing(prompt) == [])
  {
    var hashes := Scope(t, aid, qid);
    if !(qid != "" && qid in t.questions) && aid != "" && aid in t.assessments {
      var listed := set q, h | q in t.assessments[aid] && q in t.questions && h in t.questions[q] :: h;
      forall h ensures h in hashes <==> h in listed {
        if h in hashes {
          var q :| q in t.assessments[aid] && h in Listed(t, q);
          assert q in t.questions && h in t.questions[q];
        }
        if h in listed {
          var q :| q in t.assessments[aid] && q in t.questions && h in t.questions[q];
          assert h in Listed(t, q);
        }
      }
      assert hashes == listed;
    }
    assert ExactLeak(x, hashes, prompt) <==> exists i :: 0 <= i < |x.segments(prompt)| && x.hash(x.normalize(x.segments(prompt)[i])) in hashes;
    forall h | h in hashes && h in t.answers { OccursMeans(x.normalize(prompt), t.answers[h].normalized); }
  }

  /** Any answer registered since the last clear that is long enough and occurs in the prompt makes the
      unscoped check fail in both modes, unless two registered answers collide. */
  lemma {:induction false} RegisteredAnswerIsCaught(x: Texts, ops: seq<Op>, strict: bool, a: string, prompt: string)
    requires a in Live(x, ops) && |a| >= 15 && Occurs(x.normalize(prompt), a)
    requires NoCollision(x.hash, Live(x, ops))
    ensures var t := Reached(x, ops); !Passes(x, t, strict, Scope(t, "", ""), prompt)
  {
    ReachedIsConsistent(x, ops);
    var t := Reached(x, ops);
    var h := x.hash(a);
    assert t.answers[h].normalized == a;
  }

  /** So is what any question of a registration gives, from then on until a clear. */
  lemma {:induction false} GivenAnswerIsCaught(x: Texts, before: seq<Op>, aid: string, qs: seq<Question>, after: seq<Op>, q: Question, text: string, kind: Kind,
                                               strict: bool, prompt: string)
    requires q in qs && Wants(x, q, text, kind) && Clear !in after
    requires |x.normalize(text)| >= 15 && exists i, j :: 0 <= i <= j <= |x.normalize(prompt)| && x.normalize(prompt)[i..j] == x.normalize(text)
    requires NoCollision(x.hash, Live(x, before + [Register(aid, qs)] + after))
    ensures var t := Reached(x, before + [Register(aid, qs)] + after); !Passes(x, t, strict, Scope(t, "", ""), prompt)
  {
    WantedIsLive(x, before, aid, qs, after, q, text, kind);
    OccursMeans(x.normalize(prompt), x.normalize(text));
    RegisteredAnswerIsCaught(x, before + [Register(aid, qs)] + after, strict, x.normalize(text), prompt);
  }

  /* ---------------------------------------------------------------- the checker */

  datatype Severity = Critical | High | Medium | Info

  datatype Leak = Leak(severity: Severity, questionId: string, assessmentId: string)

  datatype CheckResult = CheckResult(passed: bool, checkedCount: nat, leaks: seq<Leak>)

  datatype Example = Example(prompt: string, response: string)

  function LeakOf(severity: Severity, a: Answer): Leak {
    Leak(severity, a.questionId, a.assessmentId)
  }

  /** One leak for each segment that is an answer, in order. */
  function ExactList(x: Texts, t: Tables, hashes: set<string>, segments: seq<string>): (r: seq<Leak>)
    requires hashes <= t.answers.Keys
    ensures forall l | l in r :: l.severity == Critical
  {
    if segments == [] then []
    else
      var h := x.hash(x.normalize(segments[|segments| - 1]));
      ExactList(x, t, hashes, segments[..|segments| - 1]) + if h in hashes then [LeakOf(Critical, t.answers[h])] else []
  }

  lemma {:induction false} ExactListEmptyIff(x: Texts, t: Tables, hashes: set<string>, segments: seq<string>)
    requires hashes <= t.answers.Keys
    ensures ExactList(x, t, hashes, segments) != [] <==> exists s :: s in segments && x.hash(x.normalize(s)) in hashes
  {
    if segments != [] {
      var (front, last) := (segments[..|segments| - 1], segments[|segments| - 1]);
      assert segments == front + [last];
      ExactListEmptyIff(x, t, hashes, front);
    }
  }

  predicate Near(x: Texts, prompt: string, exact: seq<Leak>, a: Answer) {
    && |a.normalized| >= 15 && Occurs(x.normalize(prompt), a.normalized)
    && !exists l | l in exact :: l.questionId == a.questionId
  }

  /** The long answers found in the prompt whose question has no exact match. */
  function NearHashes(x: Texts, t: Tables, hashes: set<string>, prompt: string, exact: seq<Leak>): set<string>
    requires hashes <= t.answers.Keys
  {
    set h | h in hashes && Near(x, prompt, exact, t.answers[h])
  }

  /** The leaks report the given answers, one leak each, in some order. */
  ghost predicate Lists(t: Tables, severity: Severity, hashes: set<string>, leaks: seq<Leak>)
    requires hashes <= t.answers.Keys
  {
    && |leaks| == |hashes|
    && (forall h | h in hashes :: LeakOf(severity, t.answers[h]) in leaks)
    && (forall l | l in leaks :: exists h :: h in hashes && l == LeakOf(severity, t.answers[h]))
  }

  lemma {:induction false} ListsSnoc(t: Tables, severity: Severity, hashes: set<string>, leaks: seq<Leak>, h: string)
    requires hashes + {h} <= t.answers.Keys && Lists(t, severity, hashes, leaks) && h !in hashes
    ensures Lists(t, severity, hashes + {h}, leaks + [LeakOf(severity, t.answers[h])])
  {
    var (more, longer) := (hashes + {h}, leaks + [LeakOf(severity, t.answers[h])]);
    assert longer[|leaks|] == LeakOf(severity, t.answers[h]);
    forall l | l in longer ensures exists k :: k in more && l == LeakOf(severity, t.answers[k]) {
      if l in leaks {
        var k :| k in hashes && l == LeakOf(severity, t.answers[k]);
        assert k in more;
      } else {
        assert h in more;
      }
    }
  }

  lemma {:induction false} ListsStep(t: Tables, severity: Severity, all: set<string>, todo: set<string>, leaks: seq<Leak>, h: string, more: seq<Leak>)
    requires all <= t.answers.Keys && h in todo && h in t.answers && Lists(t, severity, all - todo, leaks)
    requires more == if h in all then [LeakOf(severity, t.answers[h])] else []
    ensures Lists(t, severity, all - (todo - {h}), leaks + more)
  {
    if h in all {
      assert all - (todo - {h}) == all - todo + {h};
      ListsSnoc(t, severity, all - todo, leaks, h);
    } else {
      assert all - (todo - {h}) == all - todo;
      assert leaks + more == leaks;
    }
  }

  function PatternList(x: Texts, prompt: string, aid: string, qid: string): seq<Leak> {
    seq(|x.revealing(prompt)|, i => Leak(Medium, OrUnknown(qid), OrUnknown(aid)))
  }

  /** One for each pattern, with the names given or `unknown`. */
  lemma {:induction false} PatternsAre(x: Texts, prompt: string, aid: string, qid: string)
    ensures |PatternList(x, prompt, aid, qid)| == |x.revealing(prompt)|
    ensures forall l | l in PatternList(x, prompt, aid, qid) ::
              l == Leak(Medium, if qid == "" then "unknown" else qid, if aid == "" then "unknown" else aid)
  {
  }

  function OrUnknown(name: string): string {
    if name == "" then "unknown" else name
  }

  /** A prompt with a long answer in it has a near leak, or an exact one for the same question. */
  lemma {:induction false} NearOrExact(x: Texts, t: Tables, hashes: set<string>, prompt: string, exact: seq<Leak>)
    requires hashes <= t.answers.Keys
    ensures NearHashes(x, t, hashes, prompt, exact) != {} ==> SubstringLeak(x, t, hashes, prompt)
    ensures SubstringLeak(x, t, hashes, prompt) ==> NearHashes(x, t, hashes, prompt, exact) != {} || exact != []
  {
    if SubstringLeak(x, t, hashes, prompt) {
      var h :| h in hashes && h in t.answers && |t.answers[h].normalized| >= 15 && Occurs(x.normalize(prompt), t.answers[h].normalized);
      if exact == [] {
        assert h in NearHashes(x, t, hashes, prompt, exact);
      }
    }
    if NearHashes(x, t, hashes, prompt, exact) != {} {
      var h :| h in NearHashes(x, t, hashes, prompt, exact);
    }
  }

  /** What a check of a prompt reports, in order. */
  ghost predicate PromptLeaks(x: Texts, t: Tables, prompt: string, aid: string, qid: string, leaks: seq<Leak>)
    requires Scope(t, aid, qid) <= t.answers.Keys
  {
    var hashes := Scope(t, aid, qid);
    var exact := ExactList(x, t, hashes, x.segments(prompt));
    exists near :: Lists(t, High, NearHashes(x, t, hashes, prompt, exact), near) && leaks == exact + near + PatternList(x, prompt, aid, qid)
  }

  /** The answers found in a response. */
  function ResponseHashes(x: Texts, t: Tables, aid: string, response: string): set<string> {
    set h | h in t.answers && InResponse(x, aid, response, t.answers[h])
  }

  predicate InResponse(x: Texts, aid: string, response: string, a: Answer) {
    (aid == "" || a.assessmentId == aid) && Occurs(x.normalize(response), a.normalized)
  }

  /** Sum of the counts a batch reports: the segments of each prompt, and one for each response. */
  function CheckedTotal(x: Texts, examples: seq<Example>): nat {
    if examples == [] then 0
    else CheckedTotal(x, examples[..|examples| - 1]) + |x.segments(examples[|examples| - 1].prompt)| + 1
  }

  function FailingIndices(x: Texts, t: Tables, strict: bool, hashes: set<string>, examples: seq<Example>): seq<nat> {
    if examples == [] then []
    else
      var i := |examples| - 1;
      FailingIndices(x, t, strict, hashes, examples[..i]) + if Passes(x, t, strict, hashes, examples[i].prompt) then [] else [i]
  }

  lemma {:induction false} BatchSnoc(x: Texts, t: Tables, strict: bool, hashes: set<string>, examples: seq<Example>, i: nat)
    requires i < |examples|
    ensures FailingIndices(x, t, strict, hashes, examples[..i + 1]) ==
            FailingIndices(x, t, strict, hashes, examples[..i]) + if Passes(x, t, strict, hashes, examples[i].prompt) then [] else [i]
    ensures CheckedTotal(x, examples[..i + 1]) == CheckedTotal(x, examples[..i]) + |x.segments(examples[i].prompt)| + 1
  {
    assert examples[..i + 1][..i] == examples[..i];
  }

  lemma {:induction false} SeveritiesDecide(exact: seq<Leak>, near: seq<Leak>, patterns: seq<Leak>)
    requires forall l | l in exact :: l.severity == Critical
    requires forall l | l in near :: l.severity == High
    requires forall l | l in patterns :: l.severity == Medium
    ensures (forall l | l in exact + near + patterns :: l.severity != Critical && l.severity != High) <==> exact == [] && near == []
  {
    if exact != [] { assert exact[0] in exact + near + patterns; }
    if near != [] { assert near[0] in exact + near + patterns; }
  }

  class Checker {
    const x: Texts
    const strict: bool
    var tables: Tables
    /** the operations since construction */
    ghost var ops: seq<Op>

    ghost predicate Valid()
      reads this
    {
      tables == Reached(x, ops)
    }

    constructor (x: Texts, strict: bool)
      ensures Valid() && this.x == x && this.strict == strict && ops == []
    {
      this.x, this.strict, tables, ops := x, strict, empty, [];
    }

    method RegisterAssessment(aid: string, qs: seq<Question>) returns (count: nat)
      requires Valid()
      modifies this
      ensures Valid() && ops == old(ops) + [Register(aid, qs)]
      ensures (tables, count) == Registered(x, old(tables), aid, qs)
      ensures qs == [] ==> count == 0
      ensures forall q | q in qs && q.correctAnswer != "" && |x.strip(q.correctAnswer)| >= 3 :: x.hash(x.normalize(q.correctAnswer)) in tables.answers
      ensures forall q, a | q in qs && q.correctAnswer == "" && a in q.correctAnswers && a != "" && |x.strip(a)| >= 3 :: x.hash(x.normalize(a)) in tables.answers
      ensures forall q | q in qs && q.explanation != "" && |x.strip(q.explanation)| >= 3 :: x.hash(x.normalize(q.explanation)) in tables.answers
      ensures forall q, w | q in qs && w in q.whyIncorrect && w != "" && |x.strip(w)| >= 3 :: x.hash(x.normalize(w)) in tables.answers
      ensures forall h | h in tables.answers ::
                || (h in old(tables.answers) && tables.answers[h] == old(tables.answers)[h])
                || exists q, text :: q in qs && Wants(x, q, text, tables.answers[h].kind) && tables.answers[h].normalized == x.normalize(text)
    {
      ghost var before := tables;
      tables := tables.(assessments := tables.assessments[aid := {}]);
      count := RegisterQuestions(aid, qs);
      ops := ops + [Register(aid, qs)];
      assert ops[..|ops| - 1] == old(ops);
      RegistrationMeans(x, before, aid, qs);
    }

    method RegisterQuestions(aid: string, qs: seq<Question>) returns (count: nat)
      requires aid in tables.assessments
      modifies this`tables
      ensures (tables, count) == WithQuestions(x, old(tables), aid, qs)
    {
      count := 0;
      ghost var start := tables;
      for i := 0 to |qs|
        invariant tables == WithQuestions(x, start, aid, qs[..i]).0
        invariant count == WithQuestions(x, start, aid, qs[..i]).1
      {
        QuestionsSnoc(x, start, aid, qs[..i], qs[i]);
        assert qs[..i + 1] == qs[..i] + [qs[i]];
        var n := RegisterQuestion(aid, NameOf(x, qs[i], count), qs[i]);
        count := count + n;
      }
      assert qs[..|qs|] == qs;
    }

    method RegisterQuestion(aid: string, qid: string, q: Question) returns (count: nat)
      requires aid in tables.assessments
      modifies this`tables
      ensures tables == WithQuestion(x, old(tables), aid, qid, q) && count == CountOf(x, TextsOf(q))
    {
      tables := Started(tables, aid, qid);
      count := RegisterTexts(aid, qid, TextsOf(q));
    }

    method RegisterTexts(aid: string, qid: string, texts: seq<(string, Kind)>) returns (count: nat)
      modifies this`tables
      ensures tables == WithTexts(x, old(tables), aid, qid, texts) && count == CountOf(x, texts)
    {
      count := 0;
      for i := 0 to |texts|
        invariant tables == WithTexts(x, old(tables), aid, qid, texts[..i]) && count == CountOf(x, texts[..i])
      {
        assert texts[..i + 1][..i] == texts[..i];
        var (text, kind) := texts[i];
        if Registrable(x, text) {
          var n := x.normalize(text);
          var h := x.hash(n);
          tables := tables.(answers := tables.answers[h := Answer(qid, aid, h, n, kind)], questions := tables.questions[qid := Listed(tables, qid) + {h}]);
          count := count + 1;
        }
      }
      assert texts[..|texts|] == texts;
    }

    method ClearRegistry()
      requires Valid()
      modifies this
      ensures Valid() && tables == empty && ops == old(ops) + [Clear]
    {
      tables := empty;
      ops := ops + [Clear];
    }

    /** Exact matches segment by segment, then substring matches answer by answer, then patterns. */
    method CheckPrompt(prompt: string, aid: string, qid: string) returns (r: CheckResult)
      requires Valid()
      ensures r.passed <==> Passes(x, tables, strict, Scope(tables, aid, qid), prompt)
      ensures r.checkedCount == |x.segments(prompt)|
      ensures Scope(tables, aid, qid) <= tables.answers.Keys && PromptLeaks(x, tables, prompt, aid, qid, r.leaks)
      ensures !r.passed ==> r.leaks != []
      ensures var hashes := if qid != "" && qid in tables.questions then tables.questions[qid]
                            else if aid != "" && aid in tables.assessments
                            then set q, h | q in tables.assessments[aid] && q in tables.questions && h in tables.questions[q] :: h
                            else tables.answers.Keys;
              r.passed <==>
                && (forall i | 0 <= i < |x.segments(prompt)| :: x.hash(x.normalize(x.segments(prompt)[i])) !in hashes)
                && (forall h, i, j | h in hashes && h in tables.answers && |tables.answers[h].normalized| >= 15 && 0 <= i <= j <= |x.normalize(prompt)| ::
                      x.normalize(prompt)[i..j] != tables.answers[h].normalized)
                && (strict ==> x.revealing(prompt) == [])
    {
      r := RunStages(prompt, aid, qid);
      PassesMeans(x, tables, strict, aid, qid, prompt);
    }

    method RunStages(prompt: string, aid: string, qid: string) returns (r: CheckResult)
      requires Valid()
      ensures r.passed <==> Passes(x, tables, strict, Scope(tables, aid, qid), prompt)
      ensures r.checkedCount == |x.segments(prompt)|
      ensures Scope(tables, aid, qid) <= tables.answers.Keys && PromptLeaks(x, tables, prompt, aid, qid, r.leaks)
      ensures !r.passed ==> r.leaks != []
    {
      var hashes := Scope(tables, aid, qid);
      ReachedIsConsistent(x, ops);
      assert hashes <= tables.answers.Keys;
      var exact := ExactLeaks(hashes, x.segments(prompt));
      var near := SubstringLeaks(hashes, prompt, exact);
      var patterns := PatternList(x, prompt, aid, qid);
      var leaks: seq<Leak> := exact + near + patterns;
      var passed := if strict then leaks == [] else forall l: Leak | l in leaks :: l.severity != Critical && l.severity != High;
      ExactListEmptyIff(x, tables, hashes, x.segments(prompt));
      NearOrExact(x, tables, hashes, prompt, exact);
      SeveritiesDecide(exact, near, patterns);
      r := CheckResult(passed, |x.segments(prompt)|, leaks);
    }

    method ExactLeaks(hashes: set<string>, segments: seq<string>) returns (leaks: seq<Leak>)
      requires hashes <= tables.answers.Keys
      ensures leaks == ExactList(x, tables, hashes, segments)
    {
      leaks := [];
      for i := 0 to |segments|
        invariant leaks == ExactList(x, tables, hashes, segments[..i])
      {
        assert segments[..i + 1][..i] == segments[..i];
        var h := x.hash(x.normalize(segments[i]));
        if h in hashes {
          leaks := leaks + [Leak(Critical, tables.answers[h].questionId, tables.answers[h].assessmentId)];
        }
      }
      assert segments[..|segments|] == segments;
    }

    /** A substring match is not reported again for a question that already has an exact match. */
    method SubstringLeaks(hashes: set<string>, prompt: string, exact: seq<Leak>) returns (leaks: seq<Leak>)
      requires hashes <= tables.answers.Keys
      ensures Lists(tables, High, NearHashes(x, tables, hashes, prompt, exact), leaks)
    {
      leaks := [];
      var text := x.normalize(prompt);
      var todo := hashes;
      ghost var all := NearHashes(x, tables, hashes, prompt, exact);
      assert all - todo == {};
      while todo != {}
        invariant todo <= hashes
        invariant Lists(tables, High, all - todo, leaks)
        decreases todo
      {
        var h :| h in todo;
        var reported := ReportNear(text, prompt, exact, tables.answers[h]);
        ListsStep(tables, High, all, todo, leaks, h, reported);
        todo := todo - {h};
        leaks := leaks + reported;
      }
      assert all - todo == all;
    }

    method ReportNear(text: string, ghost prompt: string, exact: seq<Leak>, reg: Answer) returns (leaks: seq<Leak>)
      requires text == x.normalize(prompt)
      ensures leaks == if Near(x, prompt, exact, reg) then [LeakOf(High, reg)] else []
    {
      if |reg.normalized| < 15 {
        return [];
      }
      if Occurs(text, reg.normalized) {
        var already := exists l | l in exact :: l.questionId == reg.questionId;
        if !already {
          return [Leak(High, reg.questionId, reg.assessmentId)];
        }
      }
      return [];
    }

    /** `check_training_example`: leaks in the response are reported, and count for nothing. */
    method CheckExample(e: Example, aid: string) returns (r: CheckResult)
      requires Valid()
      ensures r.passed <==> Passes(x, tables, strict, Scope(tables, aid, ""), e.prompt)
      ensures r.checkedCount == |x.segments(e.prompt)| + 1
      ensures Scope(tables, aid, "") <= tables.answers.Keys
      ensures exists inPrompt, inResponse :: r.leaks == inPrompt + inResponse && PromptLeaks(x, tables, e.prompt, aid, "", inPrompt) &&
                Lists(tables, Info, ResponseHashes(x, tables, aid, e.response), inResponse)
      ensures !r.passed ==> r.leaks != []
    {
      var p := CheckPrompt(e.prompt, aid, "");
      var found := ResponseLeaks(aid, e.response);
      r := CheckResult(p.passed && !exists l | l in found :: l.severity == Critical || l.severity == High, p.checkedCount + 1, p.leaks + found);
    }

    method ResponseLeaks(aid: string, response: string) returns (leaks: seq<Leak>)
      ensures Lists(tables, Info, ResponseHashes(x, tables, aid, response), leaks)
    {
      leaks := [];
      var text := x.normalize(response);
      var todo := tables.answers.Keys;
      ghost var all := ResponseHashes(x, tables, aid, response);
      assert all - todo == {};
      while todo != {}
        invariant todo <= tables.answers.Keys && Lists(tables, Info, all - todo, leaks)
        decreases todo
      {
        var h :| h in todo;
        var found := ReportResponse(text, response, aid, tables.answers[h]);
        ListsStep(tables, Info, all, todo, leaks, h, found);
        todo := todo - {h};
        leaks := leaks + found;
      }
      assert all - todo == all;
    }

    method ReportResponse(text: string, ghost response: string, aid: string, reg: Answer) returns (leaks: seq<Leak>)
      requires text == x.normalize(response)
      ensures leaks == if InResponse(x, aid, response, reg) then [LeakOf(Info, reg)] else []
    {
      if aid != "" && reg.assessmentId != aid {
        return [];
      }
      return if Occurs(text, reg.normalized) then [Leak(Info, reg.questionId, reg.assessmentId)] else [];
    }

    /** Exactly the failing examples, in order; leaks of examples that pass are dropped. */
    method ScanBatch(examples: seq<Example>, aid: string) returns (r: CheckResult, failing: seq<nat>)
      requires Valid()
      ensures failing == FailingIndices(x, tables, strict, Scope(tables, aid, ""), examples)
      ensures r.passed <==> failing == []
      ensures r.checkedCount == CheckedTotal(x, examples) && (examples == [] ==> r.checkedCount == 0)
      ensures r.leaks == [] <==> failing == []
    {
      failing := [];
      var leaks: seq<Leak>, checked := [], 0;
      for i := 0 to |examples|
        invariant failing == FailingIndices(x, tables, strict, Scope(tables, aid, ""), examples[..i])
        invariant checked == CheckedTotal(x, examples[..i])
        invariant leaks == [] <==> failing == []
      {
        BatchSnoc(x, tables, strict, Scope(tables, aid, ""), examples, i);
        var one := CheckExample(examples[i], aid);
        checked := checked + one.checkedCount;
        if !one.passed {
          failing := failing + [i];
          leaks := leaks + one.leaks;
        }
      }
      assert examples[..|examples|] == examples;
      r := CheckResult(failing == [], checked, leaks);
    }
  }

  /** What that list contains. */
  lemma {:induction false} FailingIndicesMembers(x: Texts, t: Tables, strict: bool, hashes: set<string>, examples: seq<Example>)
    ensures var f := FailingIndices(x, t, strict, hashes, examples);
            && (forall i :: i in f <==> 0 <= i < |examples| && !Passes(x, t, strict, hashes, examples[i].prompt))
            && (forall j, k | 0 <= j < k < |f| :: f[j] < f[k])
  {
    if examples != [] {
      var (front, i) := (examples[..|examples| - 1], |examples| - 1);
      FailingIndicesMembers(x, t, strict, hashes, front);
      var (f, g) := (FailingIndices(x, t, strict, hashes, front), FailingIndices(x, t, strict, hashes, examples));
      assert forall j | 0 <= j < |f| :: f[j] in f;
      forall k | 0 <= k < |examples| && !Passes(x, t, strict, hashes, examples[k].prompt) ensures k in g {
        if k < i { assert front[k] == examples[k] && k in f; }
      }
    }
  }
}
