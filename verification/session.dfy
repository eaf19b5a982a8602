/**
 The session runner: the bounded retry loop for one question, the walk over
 all questions that shares one answer stream, and the statistics fold.
 Elapsed time is an abstract tick count per question, supplied by the caller.
 */
module Session {
  import opened Wrappers
  import opened Counting
  import opened Questions

  /** A question is asked at most this many times. */
  const MaxAttempts: nat := 3

  /**
   An answer is right when its upper-cased form equals the correct letter as
   stored: the letter itself unless it is lower-case, or the lower-case
   partner of an upper-case letter. A lower-case letter is never matched.
   */
  function Matches(key: char, answer: char): (m: bool)
    ensures m <==> ((!IsLower(answer) && answer == key)
                    || (IsLower(answer) && key as int == answer as int - 32))
    ensures m ==> !IsLower(key)
  {
    ToUpper(answer) == key
  }

  /** What the retry loop reports for one question. */
  datatype QuestionResult = QuestionResult(attempts: nat, correct: bool)

  predicate Solved(r: QuestionResult) { r.correct }

  predicate WellFormed(r: QuestionResult) { 1 <= r.attempts <= MaxAttempts }

  /**
   The do-while loop after `used` unsuccessful attempts: read the answer at
   position `used`, upper-case it, count the attempt, and go round again while
   it is wrong and fewer than `MaxAttempts` attempts were made. `None` when
   the answers run out before the loop stops.
   */
  function AskLoop(key: char, answers: seq<char>, used: nat): (r: Option<QuestionResult>)
    requires used < MaxAttempts
    requires forall i :: 0 <= i < used && i < |answers| ==> !Matches(key, answers[i])
    ensures r.Some? ==> used < r.value.attempts <= MaxAttempts && r.value.attempts <= |answers|
    ensures r.Some? ==> (r.value.correct <==> Matches(key, answers[r.value.attempts - 1]))
    ensures r.Some? ==> forall i :: 0 <= i < r.value.attempts - 1 ==> !Matches(key, answers[i])
    ensures r.Some? && !r.value.correct ==> r.value.attempts == MaxAttempts
    ensures r.None? <==>
      |answers| < MaxAttempts && forall i :: used <= i < |answers| ==> !Matches(key, answers[i])
    decreases MaxAttempts - used
  {
    if |answers| <= used then None
    else
      var answer := ToUpper(answers[used]);
      if answer != key && used + 1 < MaxAttempts then AskLoop(key, answers, used + 1)
      else Some(QuestionResult(used + 1, answer == key))
  }

  /**
   One question: the loop stops at the first answer that matches, or after
   `MaxAttempts` answers, whichever comes first.
   */
  function RunQuestion(key: char, answers: seq<char>): (r: Option<QuestionResult>)
    ensures r.Some? ==> WellFormed(r.value) && r.value.attempts <= |answers|
    ensures r.Some? ==> (r.value.correct <==> Matches(key, answers[r.value.attempts - 1]))
    ensures r.Some? ==> forall i :: 0 <= i < r.value.attempts - 1 ==> !Matches(key, answers[i])
    ensures r.Some? && !r.value.correct ==> r.value.attempts == MaxAttempts
    ensures r.None? <==>
      |answers| < MaxAttempts && forall i :: 0 <= i < |answers| ==> !Matches(key, answers[i])
  {
    AskLoop(key, answers, 0)
  }

  /** The attempts used per question, in question order. */
  function AttemptCounts(results: seq<QuestionResult>): (counts: seq<nat>)
    ensures |counts| == |results|
    ensures forall i :: 0 <= i < |results| ==> counts[i] == results[i].attempts
  {
    seq(|results|, i requires 0 <= i < |results| => results[i].attempts)
  }

  /**
   All questions in order, each consuming its attempts from the front of the
   one answer sequence. `None` when the answers run out.
   */
  function Play(questions: seq<Question>, answers: seq<char>): (r: Option<seq<QuestionResult>>)
    ensures r.Some? ==> |r.value| == |questions|
    ensures r.Some? ==> forall i :: 0 <= i < |r.value| ==> WellFormed(r.value[i])
    ensures r.Some? ==> Sum(AttemptCounts(r.value)) <= |answers|
    ensures |answers| >= MaxAttempts * |questions| ==> r.Some?
    decreases |questions|
  {
    if |questions| == 0 then Some([])
    else
      match RunQuestion(questions[0].correctAnswer, answers)
      case None => None
      case Some(first) =>
        match Play(questions[1..], answers[first.attempts..])
        case None => None
        case Some(rest) =>
          AttemptCountsCons(first, rest);
          Some([first] + rest)
  }

  lemma AttemptCountsCons(first: QuestionResult, rest: seq<QuestionResult>)
    ensures Sum(AttemptCounts([first] + rest)) == first.attempts + Sum(AttemptCounts(rest))
  {
    var counts := AttemptCounts([first] + rest);
    assert counts[1..] == AttemptCounts(rest);
  }

  /** The position in the answers where question `i` starts reading. */
  function Offset(results: seq<QuestionResult>, i: nat): nat
    requires i <= |results|
  {
    Sum(AttemptCounts(results[..i]))
  }

  lemma OffsetCons(first: QuestionResult, rest: seq<QuestionResult>, i: nat)
    requires 1 <= i <= |rest| + 1
    ensures Offset([first] + rest, i) == first.attempts + Offset(rest, i - 1)
  {
    assert ([first] + rest)[..i] == [first] + rest[..i - 1];
    AttemptCountsCons(first, rest[..i - 1]);
  }

  /**
   The results of a session read in turn: question `i` runs the retry loop on
   the answers left after the attempts of questions `0..i`.
   */
  predicate AnsweredInTurn(questions: seq<Question>, answers: seq<char>, results: seq<QuestionResult>)
  {
    && |results| == |questions|
    && forall i :: 0 <= i < |results| ==>
         Offset(results, i) <= |answers|
         && RunQuestion(questions[i].correctAnswer, answers[Offset(results, i)..]) == Some(results[i])
  }

  /** Question `i > 0` of a session reads where question `i - 1` of the rest of it reads. */
  lemma InTurnAt(questions: seq<Question>, answers: seq<char>, first: QuestionResult, rest: seq<QuestionResult>, i: nat)
    requires 1 <= i < |questions| == |rest| + 1 && first.attempts <= |answers|
    ensures var results, tail := [first] + rest, answers[first.attempts..];
      (Offset(results, i) <= |answers|
       && RunQuestion(questions[i].correctAnswer, answers[Offset(results, i)..]) == Some(results[i]))
      <==>
      (Offset(rest, i - 1) <= |tail|
       && RunQuestion(questions[1..][i - 1].correctAnswer, tail[Offset(rest, i - 1)..]) == Some(rest[i - 1]))
  {
    var results, tail := [first] + rest, answers[first.attempts..];
    OffsetCons(first, rest, i);
    assert questions[1..][i - 1] == questions[i];
    if Offset(results, i) <= |answers| {
      assert tail[Offset(rest, i - 1)..] == answers[Offset(results, i)..];
    }
  }

  /** Reading in turn splits into the first question and the rest of the session. */
  lemma InTurnCons(questions: seq<Question>, answers: seq<char>, first: QuestionResult, rest: seq<QuestionResult>)
    requires |questions| == |rest| + 1
    requires RunQuestion(questions[0].correctAnswer, answers) == Some(first)
    ensures AnsweredInTurn(questions, answers, [first] + rest) <==>
      AnsweredInTurn(questions[1..], answers[first.attempts..], rest)
  {
    var results, tail := [first] + rest, answers[first.attempts..];
    if AnsweredInTurn(questions, answers, results) {
      forall j | 0 <= j < |rest|
        ensures Offset(rest, j) <= |tail|
        ensures RunQuestion(questions[1..][j].correctAnswer, tail[Offset(rest, j)..]) == Some(rest[j])
      {
        InTurnAt(questions, answers, first, rest, j + 1);
      }
    }
    if AnsweredInTurn(questions[1..], tail, rest) {
      forall i | 0 <= i < |results|
        ensures Offset(results, i) <= |answers|
        ensures RunQuestion(questions[i].correctAnswer, answers[Offset(results, i)..]) == Some(results[i])
      {
        if i == 0 {
          assert Offset(results, 0) == 0 && answers[0..] == answers;
        } else {
          InTurnAt(questions, answers, first, rest, i);
        }
      }
    }
  }

  lemma {:induction false} PlayAnswersInTurn(questions: seq<Question>, answers: seq<char>)
    requires Play(questions, answers).Some?
    ensures AnsweredInTurn(questions, answers, Play(questions, answers).value)
    decreases |questions|
  {
    if |questions| > 0 {
      var first := RunQuestion(questions[0].correctAnswer, answers).value;
      var tail := answers[first.attempts..];
      var rest := Play(questions[1..], tail).value;
      PlayAnswersInTurn(questions[1..], tail);
      InTurnCons(questions, answers, first, rest);
    }
  }

  lemma {:induction false} AnsweredInTurnIsPlay(questions: seq<Question>, answers: seq<char>, results: seq<QuestionResult>)
    requires AnsweredInTurn(questions, answers, results)
    ensures Play(questions, answers) == Some(results)
    decreases |questions|
  {
    if |questions| > 0 {
      var first, rest := results[0], results[1..];
      assert results == [first] + rest;
      assert Offset(results, 0) == 0 && answers[0..] == answers;
      InTurnCons(questions, answers, first, rest);
      AnsweredInTurnIsPlay(questions[1..], answers[first.attempts..], rest);
    }
  }

  /**
   `Play` is the one sequence of results read in turn: each question runs the
   retry loop on the answers the earlier questions left.
   */
  lemma PlayIffAnsweredInTurn(questions: seq<Question>, answers: seq<char>, results: seq<QuestionResult>)
    ensures Play(questions, answers) == Some(results) <==> AnsweredInTurn(questions, answers, results)
  {
    if Play(questions, answers) == Some(results) {
      PlayAnswersInTurn(questions, answers);
    }
    if AnsweredInTurn(questions, answers, results) {
      AnsweredInTurnIsPlay(questions, answers, results);
    }
  }

  /** The running statistics of a session. */
  datatype GameStats = GameStats(
    score: nat,
    totalAttempts: nat,
    questionTimes: seq<nat>,
    totalTime: nat)

  const NewGame: GameStats := GameStats(0, 0, [], 0)

  /** The total time is the sum of the per-question times. */
  predicate Consistent(stats: GameStats) { stats.totalTime == Sum(stats.questionTimes) }

  /** The update made after one question that took `elapsed` ticks. */
  function Record(stats: GameStats, result: QuestionResult, elapsed: nat): (s: GameStats)
    ensures s.score == stats.score + 1 <==> result.correct
    ensures !result.correct ==> s.score == stats.score
    ensures s.totalAttempts == stats.totalAttempts + result.attempts
    ensures s.totalTime == stats.totalTime + elapsed
    ensures s.questionTimes == stats.questionTimes + [elapsed]
    ensures Consistent(stats) ==> Consistent(s)
  {
    SumConcat(stats.questionTimes, [elapsed]);
    GameStats(
      stats.score + (if result.correct then 1 else 0),
      stats.totalAttempts + result.attempts,
      stats.questionTimes + [elapsed],
      stats.totalTime + elapsed)
  }

  /** The statistics after recording every question in order, starting from `NewGame`. */
  function Tally(results: seq<QuestionResult>, times: seq<nat>): (s: GameStats)
    requires |results| == |times|
    ensures s.score == Count(results, Solved) && s.score <= |results|
    ensures s.totalAttempts == Sum(AttemptCounts(results))
    ensures (forall i :: 0 <= i < |results| ==> WellFormed(results[i])) ==>
      |results| <= s.totalAttempts <= MaxAttempts * |results|
    ensures s.questionTimes == times
    ensures Consistent(s)
    decreases |results|
  {
    if |results| == 0 then NewGame
    else
      var n := |results| - 1;
      assert results == results[..n] + [results[n]];
      assert AttemptCounts(results) == AttemptCounts(results[..n]) + [results[n].attempts];
      assert times == times[..n] + [times[n]];
      CountConcat(results[..n], [results[n]], Solved);
      SumConcat(AttemptCounts(results[..n]), [results[n].attempts]);
      Record(Tally(results[..n], times[..n]), results[n], times[n])
  }

  /**
   A whole session over the console stream `stream`; `times[i]` is the tick
   count measured for question `i`.
   */
  function AskQuestions(questions: seq<Question>, stream: string, times: seq<nat>): (r: Option<GameStats>)
    requires |times| == |questions|
    ensures r.Some? <==> Play(questions, Answers(stream)).Some?
    ensures r.Some? ==> r.value.score == Count(Play(questions, Answers(stream)).value, Solved)
    ensures r.Some? ==> r.value.totalAttempts == Sum(AttemptCounts(Play(questions, Answers(stream)).value))
    ensures r.Some? ==> r.value.questionTimes == times && Consistent(r.value)
    ensures r.Some? ==> r.value.score <= |questions|
    ensures r.Some? ==> |questions| <= r.value.totalAttempts <= MaxAttempts * |questions|
    ensures r.Some? ==> r.value.totalAttempts <= |Answers(stream)|
    ensures |Answers(stream)| >= MaxAttempts * |questions| ==> r.Some?
  {
    match Play(questions, Answers(stream))
    case None => None
    case Some(results) => Some(Tally(results, times))
  }

  /**
   The correct letter is never upper-cased, only the answer is, and an
   extraction never delivers white space: some answer a read can deliver
   matches a question exactly when its letter is neither a lower-case letter
   nor white space.
   */
  lemma {:induction false} CorrectLetterWinnable(raw: RawQuestion)
    ensures (exists c :: !IsSpace(c) && Matches(ParseQuestion(raw).correctAnswer, c)) <==>
      !(|raw.correct| > 0 && (IsLower(raw.correct[0]) || IsSpace(raw.correct[0])))
  {
    var key := ParseQuestion(raw).correctAnswer;
    if !IsLower(key) && !IsSpace(key) {
      assert !IsSpace(key) && Matches(key, key);
    }
  }

  /** When every question is answered right on the first read, each takes one attempt. */
  lemma {:induction false} PlayPerfect(questions: seq<Question>, answers: seq<char>)
    requires |answers| >= |questions|
    requires forall i :: 0 <= i < |questions| ==> Matches(questions[i].correctAnswer, answers[i])
    ensures Play(questions, answers).Some?
    ensures forall i :: 0 <= i < |questions| ==>
      Play(questions, answers).value[i] == QuestionResult(1, true)
    decreases |questions|
  {
    if |questions| > 0 {
      var first := RunQuestion(questions[0].correctAnswer, answers);
      assert first == Some(QuestionResult(1, true));
      PlayPerfect(questions[1..], answers[1..]);
    }
  }

  /** When no answer matches any question, each question takes all its attempts. */
  lemma {:induction false} PlayHopeless(questions: seq<Question>, answers: seq<char>)
    requires |answers| >= MaxAttempts * |questions|
    requires forall i, j :: 0 <= i < |answers| && 0 <= j < |questions| ==>
      !Matches(questions[j].correctAnswer, answers[i])
    ensures Play(questions, answers).Some?
    ensures forall i :: 0 <= i < |questions| ==>
      Play(questions, answers).value[i] == QuestionResult(MaxAttempts, false)
    decreases |questions|
  {
    if |questions| > 0 {
      var first := RunQuestion(questions[0].correctAnswer, answers);
      assert first == Some(QuestionResult(MaxAttempts, false));
      PlayHopeless(questions[1..], answers[MaxAttempts..]);
    }
  }

  /** A session answered right at every first read scores every question in one attempt each. */
  lemma {:induction false} PerfectSession(questions: seq<Question>, stream: string, times: seq<nat>)
    requires |times| == |questions|
    requires |Answers(stream)| >= |questions|
    requires forall i :: 0 <= i < |questions| ==> Matches(questions[i].correctAnswer, Answers(stream)[i])
    ensures AskQuestions(questions, stream, times).Some?
    ensures AskQuestions(questions, stream, times).value.score == |questions|
    ensures AskQuestions(questions, stream, times).value.totalAttempts == |questions|
  {
    PlayPerfect(questions, Answers(stream));
    var results := Play(questions, Answers(stream)).value;
    CountAll(results, Solved);
    SumConstant(AttemptCounts(results), 1);
  }

  /** A session in which nothing matches scores zero and uses every attempt. */
  lemma {:induction false} HopelessSession(questions: seq<Question>, stream: string, times: seq<nat>)
    requires |times| == |questions|
    requires |Answers(stream)| >= MaxAttempts * |questions|
    requires forall i, j :: 0 <= i < |Answers(stream)| && 0 <= j < |questions| ==>
      !Matches(questions[j].correctAnswer, Answers(stream)[i])
    ensures AskQuestions(questions, stream, times).Some?
    ensures AskQuestions(questions, stream, times).value.score == 0
    ensures AskQuestions(questions, stream, times).value.totalAttempts == MaxAttempts * |questions|
  {
    PlayHopeless(questions, Answers(stream));
    var results := Play(questions, Answers(stream)).value;
    CountNone(results, Solved);
    SumConstant(AttemptCounts(results), MaxAttempts);
  }

  /** White space between answers is skipped by the reads. */
  lemma ReadsSkipWhiteSpace()
    ensures Answers("a c\nd b") == ['a', 'c', 'd', 'b']
  {
    var stream := "a c\nd b";
    assert Answers(stream[6..]) == ['b'];
    assert Answers(stream[4..]) == ['d', 'b'];
    assert Answers(stream[2..]) == ['c', 'd', 'b'];
  }

  /**
   Two questions whose letter is 'B': three wrong answers end the first
   question, and the fourth answer, a lower-case 'b', is the first read of the
   second question, which it answers right.
   */
  lemma ThreeWrongThenLowercaseRight()
    ensures
      var q := ParseQuestion(RawQuestion("Q", ["x", "y", "z"], "B", None));
      Play([q, q], ['a', 'c', 'd', 'b']) == Some([QuestionResult(3, false), QuestionResult(1, true)])
  {
    var q := ParseQuestion(RawQuestion("Q", ["x", "y", "z"], "B", None));
    var answers, results := ['a', 'c', 'd', 'b'], [QuestionResult(3, false), QuestionResult(1, true)];
    assert q.correctAnswer == 'B';
    assert Offset(results, 1) == 3 by {
      assert AttemptCounts(results[..1]) == [3];
    }
    assert RunQuestion('B', answers) == Some(results[0]);
    assert RunQuestion('B', answers[3..]) == Some(results[1]) by {
      assert answers[3..] == ['b'];
    }
    AnsweredInTurnIsPlay([q, q], answers, results);
  }

  /** The statistics of that session: one point, four attempts, six ticks. */
  lemma ThreeWrongThenLowercaseRightStats()
    ensures
      var q := ParseQuestion(RawQuestion("Q", ["x", "y", "z"], "B", None));
      AskQuestions([q, q], "a c\nd b", [4, 2]) == Some(GameStats(1, 4, [4, 2], 6))
  {
    ReadsSkipWhiteSpace();
    ThreeWrongThenLowercaseRight();
    TallyOfWrongThenRight();
  }

  lemma TallyOfWrongThenRight()
    ensures Tally([QuestionResult(3, false), QuestionResult(1, true)], [4, 2]) == GameStats(1, 4, [4, 2], 6)
  {
    var results := [QuestionResult(3, false), QuestionResult(1, true)];
    var stats := Tally(results, [4, 2]);
    assert stats.score == 1 by {
      assert results[1..] == [QuestionResult(1, true)];
      assert Count(results, Solved) == 1;
    }
    assert stats.totalAttempts == 4 by {
      assert AttemptCounts(results) == [3, 1];
      assert Sum([3, 1]) == 4;
    }
    assert stats.totalTime == 6 by {
      assert Sum([4, 2]) == 6;
    }
  }
}
