# Quiz game: answer loop, session statistics and leaderboard ranking

A Dafny model of the pure core of a single-player console quiz (`Quiz.cpp`).
It covers three parts of the program:

- **Loading a question.** The `correct` string gives the correct letter, and `time_limit` defaults to 30.
- **Running a session.** Each question gets a bounded retry loop: the answer is upper-cased and compared with the correct letter. The loop stops at the first match or after three attempts. All questions share one console stream. A fold over the questions accumulates `GameStats`: score, total attempts, per-question times and total time.
- **Updating the leaderboard.** The new entry is appended to the loaded entries. The list is sorted by fewest attempts, then least time, then highest score, and cut to the first 10.

Modules, in dependency order:

- `Wrappers`: the `Option` type.
- `Counting`: `Count` and `Sum` over sequences, plus lemmas. The lemmas cover concatenation and show that a count does not change under permutation.
- `Questions`: the raw and parsed question records, and `toupper` and `isspace` in the C locale. It also models one `>>` extraction into a `char`.
- `Session`: the retry loop, the walk over all questions, and the statistics fold.
- `Leaderboard`: the comparator, insertion sort, the top-10 cut and the properties of the update.
- `Quiz`: the pipeline from parsed questions to the updated board.

The library sort is not stable. So the update is specified by the predicate `IsRankedTop(all, r)`: `r` is the first 10 entries of *some* sorted permutation of `all`. Every leaderboard property is proved for every such `r`, and the concrete `Update` is shown to be one of them. `RankedTopUniqueUpToTies` shows that these results differ only in the order of tied entries, i.e. entries with equal attempts, time and score.

Time is modelled as a natural number of ticks, supplied by the caller for each question, and compared exactly.

Two consequences of the code as written are kept in the model:

- Only the answer is upper-cased, never the stored letter. So answers are case-insensitive only for an upper-case letter: a question whose `correct` string starts with a lower-case letter, or with white space, can never be answered right (`CorrectLetterWinnable`).
- An empty `correct` string yields the letter `'\0'`. That is the terminating character of a C++ string at index 0.

## Model

| member | source | states |
|---|---|---|
| Questions.ParseQuestion | Quiz.cpp:35-42 | text and options are carried over; the correct letter is the first character of `correct`, or '\0' when that string is empty; the time limit is the given one, or 30 when absent |
| Questions.ToUpper | Quiz.cpp:62 | the result is never a lower-case ASCII letter; lower-case letters map to their upper-case partner and every other character is unchanged |
| Questions.IsSpace | Quiz.cpp:61 | the characters an extraction skips are exactly space, tab, newline, vertical tab, form feed and carriage return |
| Questions.ReadAnswer | Quiz.cpp:61 | one extraction yields a non-space character and a strictly shorter remaining stream; it fails exactly when every character left in the stream is white space |
| Questions.ReadAnswerTakesFirstNonSpace | Quiz.cpp:61 | when the first non-space character is at position k, an extraction yields that character and leaves exactly what follows it |
| Questions.Answers | Quiz.cpp:61 | the characters successive extractions deliver contain no white space, and there are exactly as many as the stream has non-space characters |
| Questions.AnswersAreNonSpace | Quiz.cpp:61 | a character is among the answers delivered iff it occurs in the stream and is not white space |
| Questions.ReadAnswerTakesNextAnswer | Quiz.cpp:61 | an extraction fails exactly when no answers remain; otherwise it yields the first remaining answer and leaves the others in order |
| Session.Matches | Quiz.cpp:62-64 | an answer matches iff it equals the stored letter and is not lower-case, or it is the lower-case partner of the stored letter; a lower-case stored letter is never matched |
| Session.AskLoop | Quiz.cpp:53-64 | from any point of the do-while loop the result obeys the same stop rule as RunQuestion |
| Session.RunQuestion | Quiz.cpp:50-64 | attempts lie in 1..3 and within the input; the outcome is correct iff the last answer read matches after upper-casing; no earlier answer matched; an incorrect outcome used exactly 3 attempts, never 4; the input runs out exactly when it is shorter than 3 and none of it matches |
| Session.Play | Quiz.cpp:48-64 | one well-formed result per question; the attempts of all questions together fit within the answers; at least 3 answers per question always suffice |
| Session.PlayAnswersInTurn | Quiz.cpp:48-64 | in a completed walk, result i is what the retry loop of question i gives on the answers left after the attempts of the questions before it |
| Session.AnsweredInTurnIsPlay | Quiz.cpp:48-64 | any results obtained by running each question's retry loop in turn on the remaining answers are what the walk returns |
| Session.PlayIffAnsweredInTurn | Quiz.cpp:48-64 | the walk returns a sequence of results iff each question's result is its retry loop run on the answers the earlier questions left |
| Session.Record | Quiz.cpp:69-78 | the score rises by exactly 1 iff the question was answered right and is unchanged otherwise; total attempts rise by the question's attempts; the elapsed time is appended and added to the total time, which stays the sum of the question times |
| Session.Tally | Quiz.cpp:45-83 | score equals the number of solved questions and is at most their number; total attempts is the sum of per-question attempts and lies between n and 3n; question times are the measured times in order and total time is their sum |
| Session.AskQuestions | Quiz.cpp:45-83 | a session completes iff the walk over the questions does; its score is the number of questions the walk solved, its total attempts the sum of their attempts, its question times the measured times and its total time their sum; score at most n, total attempts between n and 3n and within the answers read; with 3n answers it always completes |
| Session.CorrectLetterWinnable | Quiz.cpp:39-64 | some character an extraction can deliver matches a question iff its `correct` string does not start with a lower-case letter or white space |
| Session.PlayPerfect | Quiz.cpp:48-64 | when each question's first answer matches, every question is solved in one attempt |
| Session.PlayHopeless | Quiz.cpp:48-64 | when no answer matches any question and 3n answers exist, every question uses 3 attempts and is not solved |
| Session.PerfectSession | Quiz.cpp:45-83 | such a session scores n with n attempts in total |
| Session.HopelessSession | Quiz.cpp:45-83 | such a session scores 0 with 3n attempts in total |
| Session.ReadsSkipWhiteSpace | Quiz.cpp:61 | the stream "a c\nd b" delivers the answers a, c, d, b |
| Session.ThreeWrongThenLowercaseRight | Quiz.cpp:53-64 | with letter 'B' three wrong answers end the first question after exactly 3 attempts, and the fourth answer 'b' solves the second question in one |
| Session.ThreeWrongThenLowercaseRightStats | Quiz.cpp:45-83 | that session ends with score 1, 4 attempts, times [4, 2] and total time 6 |
| Leaderboard.Ahead | Quiz.cpp:144-150 | an entry ranks strictly ahead of another iff its (attempts, time, score) comes first in the lexicographic order with fewer attempts, then less time, then a higher score first, and the two differ |
| Leaderboard.TiedIffSameKey | Quiz.cpp:144-150 | two entries are tied under the comparator iff their attempts, times and scores are equal |
| Leaderboard.AheadIsStrictWeakOrder | Quiz.cpp:144-150 | the exact comparator is irreflexive and transitive, and ties are transitive |
| Leaderboard.ScoreBreaksTie | Quiz.cpp:144-150 | with equal attempts 2 and time 5, the entry with score 3 ranks ahead of the one with score 1 and not the other way round |
| Leaderboard.Insert | Quiz.cpp:144-150 | inserting into a sorted board gives a sorted board holding the old entries plus the new one |
| Leaderboard.SortEntries | Quiz.cpp:144-150 | the result is sorted by the comparator and is a permutation of the input |
| Leaderboard.Top | Quiz.cpp:151 | the result is the prefix of length min(10, length) |
| Leaderboard.Update | Quiz.cpp:140-151 | the result is a ranked top of the loaded entries plus the new one; it is sorted and has at most 10 entries |
| Leaderboard.RankedTopShape | Quiz.cpp:140-151 | any ranked top has length min(10, old length + 1), is sorted, and holds only entries of the input with no entry altered or invented |
| Leaderboard.RankedTopKeepsBest | Quiz.cpp:144-151 | every entry that was cut ranks no better than every entry kept |
| Leaderboard.NewEntrySurvives | Quiz.cpp:140-151 | the new entry is kept when fewer than 10 loaded entries rank ahead of it or tie with it |
| Leaderboard.NewEntryDropped | Quiz.cpp:140-151 | the new entry is dropped when 10 or more loaded entries rank strictly ahead of it |
| Leaderboard.NewEntrySurvivesIff | Quiz.cpp:140-151 | when no loaded entry ties with it, the new entry is kept iff fewer than 10 loaded entries rank strictly ahead of it |
| Leaderboard.LeaderGoesFirst | Quiz.cpp:140-151 | an entry ranked strictly ahead of every loaded entry comes first on the new board |
| Leaderboard.RankedTopUniqueUpToTies | Quiz.cpp:144-151 | any two results the unstable sort may give have the same length and agree position by position up to ties |
| Leaderboard.TiesMayGoEitherWay | Quiz.cpp:144-150 | two tied entries may come out in either order, so the specification does not fix a stable order |
| Leaderboard.ToleranceAhead | Quiz.cpp:144-150 | the comparator as written agrees with the exact one except for entries with equal attempts whose times differ by at most the tolerance; those it ranks by score alone |
| Leaderboard.ZeroToleranceIsExact | Quiz.cpp:147 | the comparator as written, with a zero time tolerance, is the exact comparator |
| Leaderboard.ToleranceComparatorCycles | Quiz.cpp:144-150 | with any positive time tolerance, the comparator as written ranks a ahead of b, b ahead of c and c ahead of a, for three entries with equal attempts |
| Leaderboard.ToleranceCycleCannotBeSorted | Quiz.cpp:144-150 | no arrangement of those three entries is sorted by the comparator as written |
| Quiz.SessionEntry | Quiz.cpp:141 | the pushed entry carries the player's name and ranks by the session's total attempts, total time and score |
| Quiz.PlayGame | Quiz.cpp:177-184 | a run completes iff the walk over the parsed questions does; its score is the number of questions solved and its attempts their sum; its question times are the measured ones and its total time their sum; its board is a ranked top of the loaded board plus the player's entry, sorted and at most 10 long; 3n answers always suffice |

## Left out

- Reading and writing JSON (nlohmann::json) and the files `questions.json` and `leaderboard.json`. The question records and the loaded leaderboard are parameters. Not modelled: `load_leaderboard` returning an empty list for a missing or non-array file, and the save/load round trip.
- Console output: prompts, option listings, feedback and the printed leaderboard table.
- The wall clock. Each question's elapsed time is a tick count supplied by the caller.
- The floating-point average in `show_summary`.
- Exceptions and exit codes in `main`.
- The player's name is a parameter. The program reads it with `>>` from the same console stream after the last answer.
- Session.RunQuestion: returns `None` when the console input ends before the loop stops. In the program a failed read leaves `answer` unchanged, and on the first read of a question it is uninitialised. That behaviour is not modelled.
- Questions.ToUpper: Dafny characters are Unicode code points, but the program reads single bytes. `toupper` on a negative `char` value is undefined in C, and the model leaves every character outside `a`..`z` unchanged.
- Leaderboard.Ahead: times are integer ticks compared exactly, not `double` seconds compared with the 1e-6 tolerance. The tolerance version appears only as `ToleranceAhead`, for the finding below.
- Counters are unbounded integers. The program's `int` counters cannot overflow for a question file of realistic size.
- The `time_limit` field is parsed but never enforced, as in the program. The program does not check that the correct letter names one of the options, and neither does the model.

## Findings

| source | as written | input that shows it | evidently intended | confidence | as-written member | corrected member |
|---|---|---|---|---|---|---|
| Quiz.cpp:147 | times within 1e-6 of each other are treated as equal, and the score then decides | three entries with equal attempts: a (time 0, score 1), b (time 1.5e-6, score 3), c (time 0.75e-6, score 2); the comparator puts a before b by time, b before c by score and c before a by score | a strict weak ordering, which the library sort requires (exact time comparison) | medium; not executed | Leaderboard.ToleranceCycleCannotBeSorted | Leaderboard.AheadIsStrictWeakOrder |
