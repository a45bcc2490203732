/**
 * The admin question builder of `components/AdminUploadQuestionsForm.tsx`: an editable
 * list of questions, each with its choices and the text of its correct answer, kept
 * in step when a choice is edited or removed, and a whole-form check before upload.
 * A random question id is `"Q"` followed by a suffix the caller supplies.
 */
module QuestionBuilder {
  import opened Wrappers

  datatype QuestionState = QuestionState(questionId: string, text: string, choices: seq<string>,
                                         correctAnswer: string, points: int)

  /** `EMPTY_QUESTION`: four blank choices, no correct answer, one point. */
  const EmptyQuestion := QuestionState("", "", ["", "", "", ""], "", 1)

  const InvalidFormMessage := "Please fill out all question texts, choices, and select a correct answer for each."
  const UploadedMessage := "Questions uploaded successfully."
  const UploadFailedMessage := "Failed to upload questions. Please try again."

  /** `randomId()`, given the random part. */
  function RandomId(suffix: string): (id: string)
    ensures |id| >= 1 && id[0] == 'Q'
  {
    "Q" + suffix
  }

  /** The characters `String.prototype.trim` removes: white space and line terminators. */
  predicate IsJsWhitespace(c: char)
  {
    || c == '\t' || c == '\n' || c == '\U{B}' || c == '\U{C}' || c == '\r' || c == ' '
    || c == '\U{A0}' || c == '\U{1680}' || ('\U{2000}' <= c <= '\U{200A}')
    || c == '\U{2028}' || c == '\U{2029}' || c == '\U{202F}' || c == '\U{205F}' || c == '\U{3000}'
    || c == '\U{FEFF}'
  }

  /** `!(id && id.trim() !== "")`: the id is empty or all white space. */
  predicate Blank(id: string)
  {
    forall i :: 0 <= i < |id| ==> IsJsWhitespace(id[i])
  }

  /** The fields `updateQuestion` is called with, and the value written. */
  datatype Edit = SetText(text: string) | SetCorrectAnswer(answer: string) | SetPoints(points: int)
                | SetQuestionId(id: string)

  /** `{ ...q, [field]: value }`. */
  function Apply(q: QuestionState, e: Edit): QuestionState
  {
    match e
    case SetText(t) => q.(text := t)
    case SetCorrectAnswer(a) => q.(correctAnswer := a)
    case SetPoints(p) => q.(points := p)
    case SetQuestionId(id) => q.(questionId := id)
  }

  /**
   * `parseInt(input) || 0`, given what `parseInt` made of the input. This is the
   * points field's own conversion, a helper of the input element: its number reaches
   * `Builder.UpdateQuestion` as a `SetPoints` edit.
   */
  function PointsInput(parsed: Option<int>): (p: int)
    ensures parsed.None? ==> p == 0
    ensures parsed.Some? ==> p == parsed.value
  {
    if parsed.Some? then parsed.value else 0
  }

  /** The updated question of `updateChoice`. */
  function WithChoice(q: QuestionState, c: nat, v: string): QuestionState
    requires c < |q.choices|
  {
    q.(choices := q.choices[c := v],
       correctAnswer := if q.correctAnswer == q.choices[c] then v else q.correctAnswer)
  }

  /** The updated question of `removeChoice`. */
  function WithoutChoice(q: QuestionState, c: nat): QuestionState
    requires c < |q.choices|
  {
    q.(choices := q.choices[..c] + q.choices[c + 1..],
       correctAnswer := if q.correctAnswer == q.choices[c] then "" else q.correctAnswer)
  }

  /** The correct answer is unset or names one of the choices. */
  predicate Consistent(q: QuestionState)
  {
    q.correctAnswer == "" || q.correctAnswer in q.choices
  }

  /**
   * `updateChoice`: choice `c` becomes `v`, the others stay; the correct answer follows
   * the edit exactly when it was the edited choice's text, and a consistent question
   * stays consistent.
   */
  lemma WithChoiceSpec(q: QuestionState, c: nat, v: string)
    requires c < |q.choices|
    ensures var r := WithChoice(q, c, v);
      && |r.choices| == |q.choices| && r.choices[c] == v
      && (forall j :: 0 <= j < |q.choices| && j != c ==> r.choices[j] == q.choices[j])
      && (r.correctAnswer == v <== q.correctAnswer == q.choices[c])
      && (q.correctAnswer != q.choices[c] ==> r.correctAnswer == q.correctAnswer)
      && r.questionId == q.questionId && r.text == q.text && r.points == q.points
      && (Consistent(q) ==> Consistent(r))
  {
    var r := WithChoice(q, c, v);
    if Consistent(q) && q.correctAnswer != "" && q.correctAnswer != q.choices[c] {
      var j :| 0 <= j < |q.choices| && q.choices[j] == q.correctAnswer;
      assert r.choices[j] == q.correctAnswer;
    }
  }

  /**
   * `removeChoice`: exactly choice `c` goes, the rest keep their order; the correct
   * answer is cleared exactly when it was the removed choice's text, and a consistent
   * question stays consistent.
   */
  lemma WithoutChoiceSpec(q: QuestionState, c: nat)
    requires c < |q.choices|
    ensures var r := WithoutChoice(q, c);
      && |r.choices| == |q.choices| - 1
      && (forall j :: 0 <= j < c ==> r.choices[j] == q.choices[j])
      && (forall j :: c < j < |q.choices| ==> r.choices[j - 1] == q.choices[j])
      && (r.correctAnswer == "" <== q.correctAnswer == q.choices[c])
      && (q.correctAnswer != q.choices[c] ==> r.correctAnswer == q.correctAnswer)
      && r.questionId == q.questionId && r.text == q.text && r.points == q.points
      && (Consistent(q) ==> Consistent(r))
  {
    var r := WithoutChoice(q, c);
    if Consistent(q) && q.correctAnswer != "" && q.correctAnswer != q.choices[c] {
      var j :| 0 <= j < |q.choices| && q.choices[j] == q.correctAnswer;
      if j < c {
        assert r.choices[j] == q.correctAnswer;
      } else {
        assert r.choices[j - 1] == q.correctAnswer;
      }
    }
  }

  /**
   * While no correct answer is chosen, the blank choices all equal it, so typing into
   * a blank choice also makes that text the correct answer.
   */
  lemma TypingIntoBlankChoiceSelectsIt(v: string)
    ensures WithChoice(EmptyQuestion, 0, v).correctAnswer == v
    ensures WithChoice(EmptyQuestion, 0, v).choices == [v, "", "", ""]
  {
  }

  /** The whole-form check: text, correct answer and every choice non-empty, for every question. */
  predicate IsValidQuestion(q: QuestionState)
  {
    q.text != "" && q.correctAnswer != "" && forall j :: 0 <= j < |q.choices| ==> q.choices[j] != ""
  }

  predicate IsValid(qs: seq<QuestionState>)
  {
    forall i :: 0 <= i < |qs| ==> IsValidQuestion(qs[i])
  }

  /** What the form hands to the upload action: the questions and the `openExam` flag. */
  datatype Upload = Upload(questions: seq<QuestionState>, openExam: string)

  /** The ids after the mount effect: blank ids replaced by fresh ones, others kept. */
  function AssignIds(qs: seq<QuestionState>, suffix: nat -> string): (r: seq<QuestionState>)
  {
    seq(|qs|, i requires 0 <= i < |qs| =>
      if Blank(qs[i].questionId) then qs[i].(questionId := RandomId(suffix(i))) else qs[i])
  }

  /** After the mount effect no question has a blank id, and only blank ids changed. */
  lemma AssignIdsSpec(qs: seq<QuestionState>, suffix: nat -> string)
    ensures |AssignIds(qs, suffix)| == |qs|
    ensures forall i :: 0 <= i < |qs| ==> !Blank(AssignIds(qs, suffix)[i].questionId)
    ensures forall i :: 0 <= i < |qs| && !Blank(qs[i].questionId) ==> AssignIds(qs, suffix)[i] == qs[i]
    ensures forall i :: 0 <= i < |qs| && Blank(qs[i].questionId) ==>
      AssignIds(qs, suffix)[i] == qs[i].(questionId := RandomId(suffix(i)))
  {
    var r := AssignIds(qs, suffix);
    forall i | 0 <= i < |qs| ensures !Blank(r[i].questionId) {
      if Blank(qs[i].questionId) {
        var id := RandomId(suffix(i));
        assert r[i].questionId == id;
        assert !IsJsWhitespace(id[0]);
      }
    }
  }

  class Builder {
    var questions: seq<QuestionState>
    var openExam: bool
    var pending: bool
    var message: Option<string>
    var error: Option<string>

    /** First render: one empty question with no id yet, the exam to be opened. */
    constructor ()
      ensures questions == [EmptyQuestion] && openExam && !pending && message == None && error == None
    {
      questions := [EmptyQuestion];
      openExam := true;
      pending := false;
      message := None;
      error := None;
    }

    /** The mount effect: a fresh id for every question whose id is blank. */
    method Mount(suffix: nat -> string)
      modifies this
      ensures questions == AssignIds(old(questions), suffix)
      ensures openExam == old(openExam) && pending == old(pending)
      ensures message == old(message) && error == old(error)
    {
      questions := AssignIds(questions, suffix);
    }

    /** `addQuestion()`: a new empty question with a fresh id at the end. */
    method AddQuestion(suffix: string)
      modifies this
      ensures questions == old(questions) + [EmptyQuestion.(questionId := RandomId(suffix))]
      ensures openExam == old(openExam) && pending == old(pending)
      ensures message == old(message) && error == old(error)
    {
      questions := questions + [EmptyQuestion.(questionId := RandomId(suffix))];
    }

    /** `removeQuestion(i)`: exactly position `i` goes; an index outside the list removes nothing. */
    method RemoveQuestion(i: int)
      modifies this
      ensures 0 <= i < |old(questions)| ==> questions == old(questions)[..i] + old(questions)[i + 1..]
      ensures !(0 <= i < |old(questions)|) ==> questions == old(questions)
      ensures openExam == old(openExam) && pending == old(pending)
      ensures message == old(message) && error == old(error)
    {
      if 0 <= i < |questions| {
        questions := questions[..i] + questions[i + 1..];
      }
    }

    /** `updateQuestion(i, field, value)`: one field of one question. */
    method UpdateQuestion(i: nat, e: Edit)
      requires i < |questions|
      modifies this
      ensures questions == old(questions)[i := Apply(old(questions)[i], e)]
      ensures openExam == old(openExam) && pending == old(pending)
      ensures message == old(message) && error == old(error)
    {
      questions := questions[i := Apply(questions[i], e)];
    }

    /** `setCorrectChoice(i, choice)`, offered for each choice of the question. */
    method SetCorrectChoice(i: nat, choice: string)
      requires i < |questions|
      modifies this
      ensures questions == old(questions)[i := old(questions)[i].(correctAnswer := choice)]
      ensures choice in old(questions)[i].choices ==> Consistent(questions[i])
      ensures openExam == old(openExam) && pending == old(pending)
      ensures message == old(message) && error == old(error)
    {
      UpdateQuestion(i, SetCorrectAnswer(choice));
    }

    /** `updateChoice(i, c, v)`. */
    method UpdateChoice(i: nat, c: nat, v: string)
      requires i < |questions| && c < |questions[i].choices|
      modifies this
      ensures questions == old(questions)[i := WithChoice(old(questions)[i], c, v)]
      ensures openExam == old(openExam) && pending == old(pending)
      ensures message == old(message) && error == old(error)
    {
      questions := questions[i := WithChoice(questions[i], c, v)];
    }

    /** `addChoice(i)`: a blank choice at the end of question `i`. */
    method AddChoice(i: nat)
      requires i < |questions|
      modifies this
      ensures questions == old(questions)[i := old(questions)[i].(choices := old(questions)[i].choices + [""])]
      ensures openExam == old(openExam) && pending == old(pending)
      ensures message == old(message) && error == old(error)
    {
      questions := questions[i := questions[i].(choices := questions[i].choices + [""])];
    }

    /** `removeChoice(i, c)`. */
    method RemoveChoice(i: nat, c: nat)
      requires i < |questions| && c < |questions[i].choices|
      modifies this
      ensures questions == old(questions)[i := WithoutChoice(old(questions)[i], c)]
      ensures openExam == old(openExam) && pending == old(pending)
      ensures message == old(message) && error == old(error)
    {
      questions := questions[i := WithoutChoice(questions[i], c)];
    }

    /** The "open exam" checkbox. */
    method SetOpenExam(b: bool)
      modifies this
      ensures openExam == b && questions == old(questions) && pending == old(pending)
      ensures message == old(message) && error == old(error)
    {
      openExam := b;
    }

    /**
     * `handleSubmit`: an invalid form shows the validation error and never reaches the
     * action; a valid one hands the questions and `"on"` or `""` to the action, then
     * shows its outcome. The form is not pending afterwards.
     */
    method Submit(actionSucceeds: bool) returns (sent: Option<Upload>)
      modifies this
      ensures questions == old(questions) && openExam == old(openExam) && !pending
      ensures sent.Some? <==> IsValid(questions)
      ensures !IsValid(questions) ==> error == Some(InvalidFormMessage) && message == None
      ensures sent.Some? ==> sent.value == Upload(questions, if openExam then "on" else "")
      ensures sent.Some? && actionSucceeds ==> message == Some(UploadedMessage) && error == None
      ensures sent.Some? && !actionSucceeds ==> error == Some(UploadFailedMessage) && message == None
    {
      pending := true;
      message := None;
      error := None;
      if !IsValid(questions) {
        error := Some(InvalidFormMessage);
        pending := false;
        return None;
      }
      sent := Some(Upload(questions, if openExam then "on" else ""));
      if actionSucceeds {
        message := Some(UploadedMessage);
      } else {
        error := Some(UploadFailedMessage);
      }
      pending := false;
    }
  }

  /** A freshly mounted builder holds one question, with an id, that is not yet valid. */
  lemma NewFormNeedsFilling(suffix: nat -> string)
    ensures |AssignIds([EmptyQuestion], suffix)| == 1
    ensures !Blank(AssignIds([EmptyQuestion], suffix)[0].questionId)
    ensures !IsValid(AssignIds([EmptyQuestion], suffix))
  {
    AssignIdsSpec([EmptyQuestion], suffix);
    assert AssignIds([EmptyQuestion], suffix)[0].text == "";
  }
}
