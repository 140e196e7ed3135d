/** The request checks of the quiz middlewares (`validateQuiz.js`,
    `validateQuizSubmission.js`) over parsed JSON values. Each check either
    passes the request on, answers 400 with the first failing check's
    message, or throws a TypeError (a null item, or `trim` called on a
    value that is not a string). */
module QuizValidation {
  import opened Wrappers
  import opened Text

  /** A parsed JSON value; JSON has no NaN or infinities, so numbers are reals. */
  datatype Value =
    | Undefined
    | Null
    | Bool(b: bool)
    | Num(x: real)
    | Str(s: string)
    | Arr(items: seq<Value>)
    | Obj(fields: map<string, Value>)

  /** JavaScript truthiness. */
  predicate Truthy(v: Value) {
    match v
    case Undefined => false
    case Null => false
    case Bool(b) => b
    case Num(x) => x != 0.0
    case Str(s) => |s| > 0
    case _ => true
  }

  /** `v.name`: reading a property of `null` or `undefined` throws; other
      values without that property give `undefined`. */
  datatype Read = Got(v: Value) | TypeError

  function Get(v: Value, name: string): Read {
    match v
    case Undefined => TypeError
    case Null => TypeError
    case Obj(fields) => Got(if name in fields then fields[name] else Undefined)
    case _ => Got(Undefined)
  }

  /** A string that is not blank after JavaScript's `trim()`, that is, one
      with a character `trim()` keeps. */
  predicate NonBlank(v: Value) {
    v.Str? && !AllSpace(v.s, IsJsSpace)
  }

  /** `!v || !v.trim()`: `Some(true)` rejects, `None` is the TypeError that
      `trim` on a truthy non-string raises. `trim()` leaves nothing exactly
      when every character is whitespace (`Text.AllSpace`). */
  function BlankCheck(v: Value): (r: Option<bool>)
    ensures r == Some(false) <==> NonBlank(v)
    ensures r.None? <==> Truthy(v) && !v.Str?
  {
    if !Truthy(v) then Some(true)
    else if !v.Str? then None
    else Some(AllSpace(v.s, IsJsSpace))
  }

  /** A number in [0, 3]; fractions such as 1.5 count. */
  predicate OptionIndex(v: Value) {
    v.Num? && 0.0 <= v.x <= 3.0
  }

  // ---------------------------------------------------------------------
  // validateQuiz
  // ---------------------------------------------------------------------

  datatype QuizError = TitleRequired | QuestionsRequired | QuestionTextRequired | FourOptions | BadCorrectAnswer

  /** What the middleware does: call `next()`, answer 400, or throw. */
  datatype Outcome<E> = Next | Reject(error: E) | Throws

  /** The body of the `for (const question of questions)` loop. */
  function CheckQuestion(q: Value): Outcome<QuizError> {
    match Get(q, "question_text")
    case TypeError => Throws
    case Got(text) =>
      match BlankCheck(text)
      case None => Throws
      case Some(true) => Reject(QuestionTextRequired)
      case Some(false) =>
        var options := Get(q, "options").v;
        if !options.Arr? || |options.items| != 4 then Reject(FourOptions)
        else if !OptionIndex(Get(q, "correct_answer").v) then Reject(BadCorrectAnswer)
        else Next
  }

  /** The loop: the first question that does not pass decides. */
  function CheckQuestions(qs: seq<Value>): Outcome<QuizError> {
    if |qs| == 0 then Next
    else if CheckQuestion(qs[0]) != Next then CheckQuestion(qs[0])
    else CheckQuestions(qs[1..])
  }

  /** `validateQuiz`. */
  function ValidateQuiz(body: map<string, Value>): (r: Outcome<QuizError>)
    ensures var title := if "title" in body then body["title"] else Undefined;
            r == Reject(TitleRequired) <==> !Truthy(title) || (title.Str? && !NonBlank(title))
  {
    var title := if "title" in body then body["title"] else Undefined;
    var questions := if "questions" in body then body["questions"] else Undefined;
    match BlankCheck(title)
    case None => Throws
    case Some(true) => Reject(TitleRequired)
    case Some(false) =>
      if !questions.Arr? || |questions.items| == 0 then Reject(QuestionsRequired)
      else
        CheckQuestionsNever(questions.items);
        CheckQuestions(questions.items)
  }

  lemma {:induction false} CheckQuestionsNever(qs: seq<Value>)
    ensures CheckQuestions(qs) != Reject(TitleRequired)
  {
    if |qs| > 0 {
      CheckQuestionsNever(qs[1..]);
    }
  }

  /** A well-formed question: an object with non-blank text, exactly four
      options and a correct answer that is a number in [0, 3]. */
  predicate GoodQuestion(q: Value) {
    && q.Obj?
    && "question_text" in q.fields && NonBlank(q.fields["question_text"])
    && "options" in q.fields && q.fields["options"].Arr? && |q.fields["options"].items| == 4
    && "correct_answer" in q.fields && OptionIndex(q.fields["correct_answer"])
  }

  lemma CheckQuestionIff(q: Value)
    ensures CheckQuestion(q) == Next <==> GoodQuestion(q)
  {
  }

  predicate AllGoodQuestions(qs: seq<Value>) {
    forall i :: 0 <= i < |qs| ==> GoodQuestion(qs[i])
  }

  /** The loop passes exactly when every question is well formed, and
      otherwise answers as the first question that is not. */
  lemma {:induction false} CheckQuestionsFirstFailure(qs: seq<Value>)
    ensures CheckQuestions(qs) == Next <==> AllGoodQuestions(qs)
    ensures CheckQuestions(qs) != Next ==>
              exists i :: 0 <= i < |qs| && CheckQuestions(qs) == CheckQuestion(qs[i]) && AllGoodQuestions(qs[..i])
  {
    if |qs| > 0 {
      CheckQuestionIff(qs[0]);
      CheckQuestionsFirstFailure(qs[1..]);
      assert AllGoodQuestions(qs) <==> GoodQuestion(qs[0]) && AllGoodQuestions(qs[1..]) by {
        assert forall i :: 1 <= i < |qs| ==> qs[i] == qs[1..][i - 1];
      }
      if CheckQuestion(qs[0]) != Next {
        assert qs[..0] == [];
      } else if CheckQuestions(qs[1..]) != Next {
        var i :| 0 <= i < |qs| - 1 && CheckQuestions(qs[1..]) == CheckQuestion(qs[1..][i]) && AllGoodQuestions(qs[1..][..i]);
        assert qs[..i + 1] == [qs[0]] + qs[1..][..i];
        assert qs[1..][i] == qs[i + 1];
      }
    }
  }

  /** `next()` is reached exactly when the title is a non-blank string and
      the questions form a non-empty array of well-formed questions. */
  lemma ValidateQuizNextIff(body: map<string, Value>)
    ensures ValidateQuiz(body) == Next <==>
              && "title" in body && NonBlank(body["title"])
              && "questions" in body && body["questions"].Arr? && |body["questions"].items| > 0
              && AllGoodQuestions(body["questions"].items)
  {
    if "questions" in body && body["questions"].Arr? {
      CheckQuestionsFirstFailure(body["questions"].items);
    }
  }

  // ---------------------------------------------------------------------
  // validateQuizSubmission
  // ---------------------------------------------------------------------

  datatype SubmissionError = ResponsesRequired | BadQuestionId | BadSelectedOption

  /** A number with no fractional part. */
  predicate IsInteger(v: Value) {
    v.Num? && v.x == (v.x.Floor as real)
  }

  /** The body of the `for (const response of responses)` loop. */
  function CheckResponse(resp: Value): Outcome<SubmissionError> {
    match Get(resp, "question_id")
    case TypeError => Throws
    case Got(id) =>
      if !Truthy(id) || !IsInteger(id) then Reject(BadQuestionId)
      else if !OptionIndex(Get(resp, "selected_option").v) then Reject(BadSelectedOption)
      else Next
  }

  function CheckResponses(rs: seq<Value>): Outcome<SubmissionError> {
    if |rs| == 0 then Next
    else if CheckResponse(rs[0]) != Next then CheckResponse(rs[0])
    else CheckResponses(rs[1..])
  }

  /** `validateQuizSubmission`. */
  function ValidateQuizSubmission(body: map<string, Value>): (r: Outcome<SubmissionError>)
    ensures var rs := if "responses" in body then body["responses"] else Undefined;
            r == Reject(ResponsesRequired) <==> !rs.Arr? || |rs.items| == 0
  {
    var rs := if "responses" in body then body["responses"] else Undefined;
    if !rs.Arr? || |rs.items| == 0 then Reject(ResponsesRequired)
    else
      assert forall r :: CheckResponse(r) != Reject(ResponsesRequired);
      CheckResponsesNever(rs.items);
      CheckResponses(rs.items)
  }

  lemma {:induction false} CheckResponsesNever(rs: seq<Value>)
    ensures CheckResponses(rs) != Reject(ResponsesRequired)
  {
    if |rs| > 0 {
      CheckResponsesNever(rs[1..]);
    }
  }

  /** A well-formed response: an object whose question id is a non-zero
      integer (0 is falsy) and whose selected option is a number in [0, 3]. */
  predicate GoodResponse(r: Value) {
    && r.Obj?
    && "question_id" in r.fields && IsInteger(r.fields["question_id"]) && r.fields["question_id"].x != 0.0
    && "selected_option" in r.fields && OptionIndex(r.fields["selected_option"])
  }

  lemma {:induction false} CheckResponsesFirstFailure(rs: seq<Value>)
    ensures CheckResponses(rs) == Next <==> forall i :: 0 <= i < |rs| ==> GoodResponse(rs[i])
    ensures CheckResponses(rs) != Next ==>
              exists i :: 0 <= i < |rs| && CheckResponses(rs) == CheckResponse(rs[i]) &&
                          forall j :: 0 <= j < i ==> GoodResponse(rs[j])
  {
    if |rs| > 0 {
      CheckResponsesFirstFailure(rs[1..]);
      assert forall i :: 1 <= i < |rs| ==> rs[i] == rs[1..][i - 1];
      if CheckResponse(rs[0]) == Next && CheckResponses(rs[1..]) != Next {
        var i :| 0 <= i < |rs| - 1 && CheckResponses(rs[1..]) == CheckResponse(rs[1..][i]) &&
                 forall j :: 0 <= j < i ==> GoodResponse(rs[1..][j]);
        assert CheckResponses(rs) == CheckResponse(rs[i + 1]);
      }
    }
  }

  /** A submission passes exactly when `responses` is a non-empty array of
      well-formed responses. */
  lemma ValidateSubmissionNextIff(body: map<string, Value>)
    ensures ValidateQuizSubmission(body) == Next <==>
              && "responses" in body && body["responses"].Arr? && |body["responses"].items| > 0
              && forall i :: 0 <= i < |body["responses"].items| ==> GoodResponse(body["responses"].items[i])
  {
    if "responses" in body && body["responses"].Arr? {
      CheckResponsesFirstFailure(body["responses"].items);
    }
  }

  /** Question id 0 is refused, a fractional option index is accepted. */
  lemma SubmissionEdges()
    ensures CheckResponse(Obj(map["question_id" := Num(0.0), "selected_option" := Num(1.0)])) == Reject(BadQuestionId)
    ensures CheckResponse(Obj(map["question_id" := Num(7.0), "selected_option" := Num(1.5)])) == Next
  {
    var a := Obj(map["question_id" := Num(0.0), "selected_option" := Num(1.0)]);
    assert Get(a, "question_id") == Got(Num(0.0));
    var b := Obj(map["question_id" := Num(7.0), "selected_option" := Num(1.5)]);
    assert Get(b, "question_id") == Got(Num(7.0));
    assert Get(b, "selected_option") == Got(Num(1.5));
    assert (7.0).Floor == 7;
  }
}
