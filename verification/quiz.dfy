/**
 The program's pipeline once the files are read and the clock is abstracted:
 parse the questions, run the session, and rank the player's entry into the
 loaded leaderboard.
 */
module Quiz {
  import opened Wrappers
  import opened Questions
  import opened Session
  import opened Leaderboard
  import opened Counting

  /**
   The entry a finished session contributes to the leaderboard: the player's
   name and the session's totals, so it ranks by the session's attempts, then
   its time, then its score.
   */
  function SessionEntry(name: string, stats: GameStats): (e: Entry)
    ensures e.name == name
    ensures KeyOf(e) == Key(stats.totalAttempts, stats.totalTime, stats.score)
  {
    Entry(name, stats.totalAttempts, stats.totalTime, stats.score)
  }

  /** The question objects in file order, each parsed. */
  function ParseAll(raws: seq<RawQuestion>): (questions: seq<Question>)
    ensures |questions| == |raws|
    ensures forall i :: 0 <= i < |raws| ==> questions[i] == ParseQuestion(raws[i])
  {
    seq(|raws|, i requires 0 <= i < |raws| => ParseQuestion(raws[i]))
  }

  /**
   One run: `raws` are the question objects in file order, `stream` the
   console input for the answers, `times[i]` the ticks measured for question
   `i`, `name` the name the player enters and `board` the loaded leaderboard.
   `None` when the console input runs out before the last question ends.
   */
  function PlayGame(raws: seq<RawQuestion>, stream: string, times: seq<nat>, name: string, board: seq<Entry>)
    : (r: Option<(GameStats, seq<Entry>)>)
    requires |times| == |raws|
    ensures r.Some? ==> IsRankedTop(board + [SessionEntry(name, r.value.0)], r.value.1)
    ensures r.Some? ==> |r.value.1| <= Capacity && Sorted(r.value.1)
    ensures r.Some? <==> Play(ParseAll(raws), Answers(stream)).Some?
    ensures r.Some? ==> r.value.0.score == Count(Play(ParseAll(raws), Answers(stream)).value, Solved)
    ensures r.Some? ==>
      r.value.0.totalAttempts == Sum(AttemptCounts(Play(ParseAll(raws), Answers(stream)).value))
    ensures r.Some? ==> r.value.0.questionTimes == times && r.value.0.totalTime == Sum(times)
    ensures r.Some? ==> r.value.0.score <= |raws|
    ensures r.Some? ==> |raws| <= r.value.0.totalAttempts <= MaxAttempts * |raws|
    ensures |Answers(stream)| >= MaxAttempts * |raws| ==> r.Some?
  {
    var questions := ParseAll(raws);
    match AskQuestions(questions, stream, times)
    case None => None
    case Some(stats) => Some((stats, Update(board, SessionEntry(name, stats))))
  }
}
