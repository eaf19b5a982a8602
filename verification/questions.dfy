/**
 Question records and the character-level input model: how a question object
 is turned into a `Question`, how one `>>` extraction into a `char` reads the
 console stream, and how an answer letter is upper-cased.
 */
module Questions {
  import opened Wrappers
  import opened Counting

  /** Time limit recorded when the question object has no `time_limit` field. */
  const DefaultTimeLimit: int := 30

  /** The fields of one question object as they arrive from the question file. */
  datatype RawQuestion = RawQuestion(
    question: string,
    options: seq<string>,
    correct: string,
    timeLimit: Option<int>)

  /** A loaded question; the time limit is informational and never enforced. */
  datatype Question = Question(
    text: string,
    options: seq<string>,
    correctAnswer: char,
    timeLimit: int)

  /**
   The correct letter is the first character of the `correct` string. For an
   empty string the character at index 0 of a C++ string is the terminating
   NUL, so the letter is '\0'.
   */
  function ParseQuestion(raw: RawQuestion): (q: Question)
    ensures q.text == raw.question && q.options == raw.options
    ensures |raw.correct| > 0 ==> q.correctAnswer == raw.correct[0]
    ensures |raw.correct| == 0 ==> q.correctAnswer == '\0'
    ensures q.timeLimit == (if raw.timeLimit.Some? then raw.timeLimit.value else DefaultTimeLimit)
  {
    Question(
      raw.question,
      raw.options,
      if |raw.correct| > 0 then raw.correct[0] else '\0',
      match raw.timeLimit
      case Some(limit) => limit
      case None => DefaultTimeLimit)
  }

  predicate IsLower(c: char) { 'a' <= c <= 'z' }

  /** `toupper` in the C locale: only the 26 lower-case ASCII letters change. */
  function ToUpper(c: char): (u: char)
    ensures !IsLower(u)
    ensures IsLower(c) ==> u as int == c as int - 32
    ensures !IsLower(c) ==> u == c
  {
    if IsLower(c) then (c as int - 32) as char else c
  }

  /** `isspace` in the C locale: space, tab, newline, vertical tab, form feed, carriage return. */
  function IsSpace(c: char): (b: bool)
    ensures b <==> c in {' ', '\t', '\n', '\U{000B}', '\U{000C}', '\r'}
  {
    c == ' ' || 9 <= c as int <= 13
  }

  predicate NotSpace(c: char) { !IsSpace(c) }

  /**
   One `>>` extraction into a `char`: skip white space, then take one
   character. `None` when the stream ends first.
   */
  function ReadAnswer(stream: string): (r: Option<(char, string)>)
    ensures r.Some? ==> !IsSpace(r.value.0) && |r.value.1| < |stream|
    ensures r.None? <==> forall i :: 0 <= i < |stream| ==> IsSpace(stream[i])
    decreases |stream|
  {
    if |stream| == 0 then None
    else if IsSpace(stream[0]) then ReadAnswer(stream[1..])
    else Some((stream[0], stream[1..]))
  }

  /** The characters that successive `>>` extractions into a `char` deliver. */
  function Answers(stream: string): (a: seq<char>)
    ensures forall i :: 0 <= i < |a| ==> !IsSpace(a[i])
    ensures |a| == Count(stream, NotSpace)
  {
    if |stream| == 0 then []
    else if IsSpace(stream[0]) then Answers(stream[1..])
    else [stream[0]] + Answers(stream[1..])
  }

  /** The answers are the characters of the stream that are not white space. */
  lemma {:induction false} AnswersAreNonSpace(stream: string)
    ensures forall c :: c in Answers(stream) <==> c in stream && !IsSpace(c)
    decreases |stream|
  {
    if |stream| > 0 {
      AnswersAreNonSpace(stream[1..]);
      assert stream == [stream[0]] + stream[1..];
    }
  }

  /**
   An extraction delivers the first character of the stream that is not white
   space and leaves exactly what follows it.
   */
  lemma {:induction false} ReadAnswerTakesFirstNonSpace(stream: string, k: nat)
    requires k < |stream| && !IsSpace(stream[k])
    requires forall i :: 0 <= i < k ==> IsSpace(stream[i])
    ensures ReadAnswer(stream) == Some((stream[k], stream[k + 1..]))
    decreases k
  {
    if k > 0 {
      ReadAnswerTakesFirstNonSpace(stream[1..], k - 1);
      assert stream[1..][k - 1 + 1..] == stream[k + 1..];
    }
  }

  /**
   Reading one answer takes the first of `Answers(stream)` and leaves the rest
   of them in the stream, so a whole session of reads sees exactly `Answers(stream)`.
   */
  lemma {:induction false} ReadAnswerTakesNextAnswer(stream: string)
    ensures ReadAnswer(stream).None? <==> Answers(stream) == []
    ensures ReadAnswer(stream).Some? ==>
      Answers(stream) == [ReadAnswer(stream).value.0] + Answers(ReadAnswer(stream).value.1)
    decreases |stream|
  {
    if |stream| > 0 && IsSpace(stream[0]) {
      ReadAnswerTakesNextAnswer(stream[1..]);
    }
  }
}
