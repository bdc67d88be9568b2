/**
 * The exercise widget: how a submitted answer is judged, the attempt record
 * it produces, when the submit button and the inputs are enabled, and the
 * per-instance submission state machine
 * Unanswered -> Submitting -> Answered(correct), locked once answered.
 */
module Exercises {
  import opened Wrappers
  import opened JsText

  datatype Kind = Mcq | Numeric

  /** An exercise as the widget receives it. `answer` is the canonical answer
      text; `tolerance` is `None` when the field is absent. */
  datatype Exercise = Exercise(
    id: string,
    kind: Kind,
    options: seq<string>,
    answer: string,
    tolerance: Option<real>)

  const DefaultTolerance: real := 0.001

  /** `exercise.tolerance || 1e-3`: a falsy tolerance (absent or zero) falls back
      to the default; any other value, negative ones included, is used as is. */
  function EffectiveTolerance(t: Option<real>): (r: real)
    ensures r == DefaultTolerance || (t.Some? && r == t.value)
    ensures t.Some? && t.value != 0.0 ==> r == t.value
    ensures t.None? || t.value == 0.0 ==> r == DefaultTolerance
  {
    if t.Some? && t.value != 0.0 then t.value else DefaultTolerance
  }

  /** An explicit tolerance of zero cannot be told apart from no tolerance. */
  lemma ZeroToleranceIsDefault()
    ensures EffectiveTolerance(Some(0.0)) == EffectiveTolerance(None) == DefaultTolerance
  {
  }

  function Abs(x: real): (r: real)
    ensures r >= 0.0 && (r == x || r == -x)
  {
    if x < 0.0 then -x else x
  }

  /** `Math.abs(user - expected) <= tol`, where any comparison with NaN is false. */
  predicate WithinTolerance(user: Option<real>, expected: Option<real>, tol: real)
    ensures WithinTolerance(user, expected, tol) <==>
      user.Some? && expected.Some? && expected.value - tol <= user.value <= expected.value + tol
  {
    user.Some? && expected.Some? && Abs(user.value - expected.value) <= tol
  }

  /** Whether the submitted answer is correct: exact string equality for a
      multiple-choice exercise, the tolerance test on the parsed numbers for a
      numeric one. */
  function Evaluate(ex: Exercise, selected: string, numericText: string): (correct: bool)
    ensures ex.kind == Mcq ==> (correct <==> selected == ex.answer)
    ensures ex.kind == Numeric ==>
      (correct <==>
        var u := ParseFloat(numericText);
        var e := ParseFloat(ex.answer);
        var tol := EffectiveTolerance(ex.tolerance);
        u.Some? && e.Some? && e.value - tol <= u.value <= e.value + tol)
  {
    match ex.kind
    case Mcq => selected == ex.answer
    case Numeric =>
      WithinTolerance(ParseFloat(numericText), ParseFloat(ex.answer), EffectiveTolerance(ex.tolerance))
  }

  /** An answer text that does not parse is never correct. */
  lemma UnparsableIsIncorrect(ex: Exercise, selected: string, numericText: string)
    requires ex.kind == Numeric
    requires forall i :: 0 <= i < |numericText| ==> !IsDigit(numericText[i])
    ensures !Evaluate(ex, selected, numericText)
  {
  }

  /** Multiple choice is case-sensitive: "B" is right, "b" is not. */
  lemma McqExample(id: string, options: seq<string>)
    ensures var ex := Exercise(id, Mcq, options, "B", None);
      Evaluate(ex, "B", "") && !Evaluate(ex, "b", "")
  {
  }

  /** A tolerance of 0.01 around an answer of "3.14": "3.15" is on the
      inclusive bound and "3.16" is outside. */
  lemma ToleranceBoundaryExample(id: string)
    ensures Evaluate(Exercise(id, Numeric, [], "3.14", Some(0.01)), "", "3.15")
    ensures !Evaluate(Exercise(id, Numeric, [], "3.14", Some(0.01)), "", "3.16")
  {
    var ex := Exercise(id, Numeric, [], "3.14", Some(0.01));
    assert Evaluate(ex, "", "3.15") by {
      ExampleReadings("3.14", 3.14);
      ExampleReadings("3.15", 3.15);
    }
    assert !Evaluate(ex, "", "3.16") by {
      ExampleReadings("3.14", 3.14);
      ExampleReadings("3.16", 3.16);
    }
  }

  /** Without a tolerance the default 0.001 applies around "10"; an explicit
      zero tolerance does not demand exact equality. */
  lemma DefaultToleranceExample(id: string)
    ensures Evaluate(Exercise(id, Numeric, [], "10", None), "", "10.0009")
    ensures !Evaluate(Exercise(id, Numeric, [], "10", None), "", "10.002")
    ensures Evaluate(Exercise(id, Numeric, [], "10", Some(0.0)), "", "10.0005")
  {
    assert Evaluate(Exercise(id, Numeric, [], "10", None), "", "10.0009") by {
      ExampleReadings("10", 10.0);
      ExampleReadings("10.0009", 10.0009);
    }
    assert !Evaluate(Exercise(id, Numeric, [], "10", None), "", "10.002") by {
      ExampleReadings("10", 10.0);
      ExampleReadings("10.002", 10.002);
    }
    assert Evaluate(Exercise(id, Numeric, [], "10", Some(0.0)), "", "10.0005") by {
      ExampleReadings("10", 10.0);
      ExampleReadings("10.0005", 10.0005);
    }
  }

  /** What `parseFloat` reads from the answer texts of the two examples above. */
  lemma ExampleReadings(s: string, x: real)
    requires || (s == "3.14" && x == 3.14) || (s == "3.15" && x == 3.15) || (s == "3.16" && x == 3.16)
             || (s == "10.0009" && x == 10.0009) || (s == "10.002" && x == 10.002)
             || (s == "10.0005" && x == 10.0005) || (s == "10" && x == 10.0)
    ensures ParseFloat(s) == Some(x)
  {
    ExampleTexts();
    ExampleDigits();
    if s == "3.14" { ParseDecimal(s, "3", "14", x); }
    else if s == "3.15" { ParseDecimal(s, "3", "15", x); }
    else if s == "3.16" { ParseDecimal(s, "3", "16", x); }
    else if s == "10.0009" { ParseDecimal(s, "10", "0009", x); }
    else if s == "10.002" { ParseDecimal(s, "10", "002", x); }
    else if s == "10.0005" { ParseDecimal(s, "10", "0005", x); }
    else {
      ParseNatText(10);
      assert NatText(10) == "10";
    }
  }

  lemma ExampleTexts()
    ensures "3" + "." + "14" == "3.14" && "3" + "." + "15" == "3.15" && "3" + "." + "16" == "3.16"
    ensures "10" + "." + "0009" == "10.0009" && "10" + "." + "002" == "10.002"
    ensures "10" + "." + "0005" == "10.0005"
  {
  }

  lemma ExampleDigits()
    ensures DigitsValue("3") == 3 && DigitsValue("10") == 10
    ensures DigitsValue("14") == 14 && DigitsValue("15") == 15 && DigitsValue("16") == 16
    ensures DigitsValue("0009") == 9 && DigitsValue("002") == 2 && DigitsValue("0005") == 5
  {
    assert "10"[..1] == "1" && "14"[..1] == "1" && "15"[..1] == "1" && "16"[..1] == "1";
    assert "0009"[..3] == "000" && "0005"[..3] == "000" && "002"[..2] == "00";
    assert "000"[..2] == "00" && "00"[..1] == "0";
  }

  /** Typing the canonical answer text itself is judged correct, provided that
      text parses and the tolerance in force is not negative. */
  lemma CanonicalAnswerIsCorrect(ex: Exercise, selected: string)
    requires ex.kind == Numeric
    requires ParseFloat(ex.answer).Some? && EffectiveTolerance(ex.tolerance) >= 0.0
    ensures Evaluate(ex, selected, ex.answer)
  {
  }

  /** A negative tolerance is truthy, so it is used as is and no numeric answer
      can be correct. */
  lemma NegativeToleranceRejectsAll(ex: Exercise, selected: string, numericText: string)
    requires ex.kind == Numeric && ex.tolerance.Some? && ex.tolerance.value < 0.0
    ensures !Evaluate(ex, selected, numericText)
  {
  }

  /** The value stored with an attempt: the raw selection, or the parsed
      number (`None` standing for NaN). */
  datatype AnswerValue = TextValue(text: string) | NumberValue(number: Option<real>)

  /** The row inserted into the attempts table. */
  datatype Attempt = Attempt(
    userId: string,
    exerciseId: string,
    submitted: AnswerValue,
    isCorrect: bool)

  function MakeAttempt(ex: Exercise, userId: string, selected: string, numericText: string): (a: Attempt)
    ensures a.userId == userId && a.exerciseId == ex.id
    ensures a.isCorrect == Evaluate(ex, selected, numericText)
    ensures a.submitted == if ex.kind == Mcq then TextValue(selected)
                           else NumberValue(ParseFloat(numericText))
  {
    Attempt(userId, ex.id,
            if ex.kind == Mcq then TextValue(selected) else NumberValue(ParseFloat(numericText)),
            Evaluate(ex, selected, numericText))
  }

  /** The `is_correct` flag of a recorded attempt agrees with its recorded value:
      judging the stored value again gives the same verdict. */
  lemma AttemptIsConsistent(ex: Exercise, userId: string, selected: string, numericText: string)
    ensures var a := MakeAttempt(ex, userId, selected, numericText);
      match a.submitted
      case TextValue(t) => ex.kind == Mcq && (a.isCorrect <==> t == ex.answer)
      case NumberValue(u) =>
        ex.kind == Numeric &&
        (a.isCorrect <==> WithinTolerance(u, ParseFloat(ex.answer), EffectiveTolerance(ex.tolerance)))
  {
  }

  /** `canSubmit`: a multiple-choice selection is made, or the numeric text
      has a character other than white space. */
  predicate HasAnswer(kind: Kind, selected: string, numericText: string)
    ensures kind == Mcq ==> (HasAnswer(kind, selected, numericText) <==> selected != [])
    ensures kind == Numeric ==>
      (HasAnswer(kind, selected, numericText) <==>
       exists i :: 0 <= i < |numericText| && !IsJsSpace(numericText[i]))
  {
    if kind == Mcq then selected != [] else Trim(numericText) != []
  }

  /** The submit button's enabling rule. */
  predicate SubmitEnabled(hasAnswer: bool, isSubmitted: bool, isSubmitting: bool) {
    hasAnswer && !isSubmitted && !isSubmitting
  }

  datatype Phase = Unanswered | Submitting | Answered(correct: bool)

  /** One mounted exercise widget and its component state. */
  class ExerciseInstance {
    const exercise: Exercise
    var selectedAnswer: string
    var numericAnswer: string
    var isSubmitted: bool
    var isCorrect: Option<bool>
    var isSubmitting: bool
    /** The attempt whose insert is awaited, while a submission is in flight. */
    var inFlight: Option<Attempt>

    ghost predicate Valid()
      reads this
    {
      && (isSubmitted <==> isCorrect.Some?)
      && (isSubmitting <==> inFlight.Some?)
      && !(isSubmitted && isSubmitting)
      && (inFlight.Some? ==> inFlight.value.exerciseId == exercise.id)
    }

    function Phase(): (p: Phase)
      reads this
      requires Valid()
      ensures p.Unanswered? <==> !isSubmitting && !isSubmitted
      ensures p.Submitting? <==> isSubmitting
      ensures p.Answered? <==> isSubmitted
      ensures p.Answered? ==> isCorrect == Some(p.correct)
    {
      if isSubmitting then Submitting
      else if isSubmitted then Answered(isCorrect.value)
      else Unanswered
    }

    predicate CanSubmit()
      reads this
    {
      HasAnswer(exercise.kind, selectedAnswer, numericAnswer)
    }

    /** The submit button: enabled when an answer is given and the instance is
        neither answered nor submitting. */
    predicate SubmitButtonEnabled()
      reads this
      ensures SubmitButtonEnabled() ==> !isSubmitted && !isSubmitting
    {
      SubmitEnabled(CanSubmit(), isSubmitted, isSubmitting)
    }

    /** The radio group and the numeric input are disabled once answered. */
    predicate InputsDisabled()
      reads this
      ensures InputsDisabled() ==> !SubmitButtonEnabled()
      ensures Valid() ==> (InputsDisabled() <==> Phase().Answered?)
    {
      isSubmitted
    }

    constructor (ex: Exercise)
      ensures exercise == ex && selectedAnswer == [] && numericAnswer == []
      ensures Valid() && Phase() == Unanswered && inFlight == None
    {
      exercise := ex;
      selectedAnswer, numericAnswer := [], [];
      isSubmitted, isCorrect, isSubmitting := false, None, false;
      inFlight := None;
    }

    /** Picking a radio option; ignored while the radio group is disabled. */
    method SelectOption(option: string)
      requires Valid()
      requires option in exercise.options
      modifies this
      ensures Valid()
      ensures selectedAnswer == if old(InputsDisabled()) then old(selectedAnswer) else option
      ensures numericAnswer == old(numericAnswer) && isSubmitted == old(isSubmitted)
      ensures isCorrect == old(isCorrect) && isSubmitting == old(isSubmitting)
      ensures inFlight == old(inFlight)
    {
      if !InputsDisabled() {
        selectedAnswer := option;
      }
    }

    /** Typing into the numeric input; ignored while the input is disabled. */
    method EditNumeric(text: string)
      requires Valid()
      modifies this
      ensures Valid()
      ensures numericAnswer == if old(InputsDisabled()) then old(numericAnswer) else text
      ensures selectedAnswer == old(selectedAnswer) && isSubmitted == old(isSubmitted)
      ensures isCorrect == old(isCorrect) && isSubmitting == old(isSubmitting)
      ensures inFlight == old(inFlight)
    {
      if !InputsDisabled() {
        numericAnswer := text;
      }
    }

    /**
     * `handleSubmit` up to the awaited insert. Without a signed-in user nothing
     * changes and no attempt is sent. Otherwise the instance is Submitting and
     * the returned attempt, judged on the current answer, is what is inserted.
     */
    method BeginSubmit(hasUser: bool, userId: string) returns (insert: Option<Attempt>)
      requires Valid() && !isSubmitted && !isSubmitting
      modifies this
      ensures Valid()
      ensures !hasUser ==> insert == None && Phase() == Unanswered && inFlight == None
      ensures hasUser ==>
        && insert == Some(MakeAttempt(exercise, userId, selectedAnswer, numericAnswer))
        && inFlight == insert && Phase() == Submitting
      ensures selectedAnswer == old(selectedAnswer) && numericAnswer == old(numericAnswer)
      ensures isSubmitted == old(isSubmitted) && isCorrect == old(isCorrect)
    {
      if !hasUser {
        return None;
      }
      isSubmitting := true;
      var attempt := MakeAttempt(exercise, userId, selectedAnswer, numericAnswer);
      inFlight := Some(attempt);
      insert := inFlight;
    }

    /**
     * The rest of `handleSubmit`, once the insert has answered. On success the
     * instance is answered with the computed correctness and the callback is
     * due once; on failure (an error reply or an exception) the answered flags
     * stay as they were and no callback is made. Either way submitting ends.
     * The `onAttemptSubmitted` prop is taken to be present, as it is at the
     * widget's only use on the dashboard.
     */
    method CompleteSubmit(insertOk: bool) returns (callbackCalls: nat)
      requires Valid() && isSubmitting
      modifies this
      ensures Valid() && !isSubmitting && inFlight == None
      ensures callbackCalls == if insertOk then 1 else 0
      ensures insertOk ==> Phase() == Answered(old(inFlight).value.isCorrect)
      ensures !insertOk ==> Phase() == Unanswered
      ensures !insertOk ==> isSubmitted == old(isSubmitted) && isCorrect == old(isCorrect)
      ensures selectedAnswer == old(selectedAnswer) && numericAnswer == old(numericAnswer)
    {
      var correct := inFlight.value.isCorrect;
      callbackCalls := 0;
      if insertOk {
        isSubmitted := true;
        isCorrect := Some(correct);
        callbackCalls := callbackCalls + 1;
      }
      isSubmitting := false;
      inFlight := None;
    }

    /** A press of the submit button followed by the insert's reply. A press
        while the button is disabled changes nothing: once answered, and while
        an earlier insert is still awaited. */
    method PressSubmit(hasUser: bool, userId: string, insertOk: bool)
      returns (insert: Option<Attempt>, callbackCalls: nat)
      requires Valid()
      modifies this
      ensures Valid()
      ensures old(isSubmitting) ==> insert == None && callbackCalls == 0 && unchanged(this)
      ensures !old(isSubmitting) ==> !isSubmitting && inFlight == None
      ensures selectedAnswer == old(selectedAnswer) && numericAnswer == old(numericAnswer)
      ensures !(old(SubmitButtonEnabled()) && hasUser) ==>
        insert == None && callbackCalls == 0 &&
        isSubmitted == old(isSubmitted) && isCorrect == old(isCorrect)
      ensures old(SubmitButtonEnabled()) && hasUser ==>
        && insert == Some(MakeAttempt(exercise, userId, selectedAnswer, numericAnswer))
        && callbackCalls == (if insertOk then 1 else 0)
        && Phase() == (if insertOk then Answered(insert.value.isCorrect) else Unanswered)
      ensures old(isSubmitted) ==> isSubmitted && isCorrect == old(isCorrect)
    {
      insert, callbackCalls := None, 0;
      if SubmitButtonEnabled() {
        insert := BeginSubmit(hasUser, userId);
        if insert.Some? {
          callbackCalls := CompleteSubmit(insertOk);
        }
      }
    }
  }
}
