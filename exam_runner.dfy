/**
 * The exam-taking component of `components/ExamRunner.tsx`: question navigation, the
 * answer map keyed by question id, and the submit-once latch (`submitOnceGuard`) that
 * lets at most one `submitAction` call be in flight and none after a successful one.
 * User actions, timer ticks and the settling of the submit promise are explicit
 * events; each method returns the `submitAction` call it makes, if any.
 */
module ExamRunner {
  import opened Wrappers
  import opened Countdown

  datatype Question = Question(questionId: string, text: string, choices: seq<string>, points: int)

  /** The `answers` record: question id to the chosen choice. */
  type Answers = map<string, string>

  /** The pending `submitAction` call: the answers sent, and whether the timer triggered it. */
  datatype Attempt = Attempt(answers: Answers, auto: bool)

  const TimeUpMessage := "Time is up, but we could not submit your exam. Please try again."
  const FailedMessage := "Submission failed. Please try again."

  class Runner {
    const questions: seq<Question>
    const timer: Timer
    var index: int
    var answers: Answers
    var submitting: bool
    var submitted: bool
    /** `submitOnceGuard.current`. */
    var latch: bool
    var inFlight: Option<Attempt>
    /** Every `submitAction` call made so far, in order. */
    ghost var calls: seq<Answers>
    /** How many of those calls failed. */
    ghost var failures: nat

    /**
     * The latch is closed exactly while a call is in flight or after a success; every
     * call but the one in flight or the successful one has failed.
     */
    ghost predicate Valid()
      reads this, timer
    {
      && |questions| >= 1 && 0 <= index < |questions|
      && timer.Valid()
      && (submitting <==> inFlight.Some?)
      && (latch <==> inFlight.Some? || submitted)
      && !(submitted && inFlight.Some?)
      && |calls| == failures + (if latch then 1 else 0)
      && (inFlight.Some? ==> calls[|calls| - 1] == inFlight.value.answers)
    }

    /** First render: question 0, no answers, nothing submitted, the timer at `minutes * 60`. */
    constructor (questions: seq<Question>, durationMinutes: int)
      requires |questions| >= 1
      ensures Valid() && fresh(timer)
      ensures this.questions == questions && index == 0 && answers == map[]
      ensures !submitting && !submitted && !latch && inFlight == None && calls == []
      ensures timer.minutes == durationMinutes && timer.secondsLeft == durationMinutes * 60
    {
      this.questions := questions;
      timer := new Timer(durationMinutes);
      index := 0;
      answers := map[];
      submitting := false;
      submitted := false;
      latch := false;
      inFlight := None;
      calls := [];
      failures := 0;
    }

    /**
     * `handleSubmit(auto)`. With the latch closed nothing happens; otherwise the latch
     * closes and exactly one call with the current answers goes out.
     */
    method HandleSubmit(auto: bool) returns (call: Option<Answers>)
      requires Valid()
      modifies this
      ensures Valid()
      ensures index == old(index) && answers == old(answers) && submitted == old(submitted)
      ensures failures == old(failures)
      ensures old(latch) ==> call == None && latch && submitting == old(submitting)
                             && inFlight == old(inFlight) && calls == old(calls)
      ensures !old(latch) ==> call == Some(answers) && latch && submitting
                              && inFlight == Some(Attempt(answers, auto)) && calls == old(calls) + [answers]
    {
      if latch {
        return None;
      }
      latch := true;
      submitting := true;
      inFlight := Some(Attempt(answers, auto));
      calls := calls + [answers];
      call := Some(answers);
    }

    /**
     * The in-flight call settles. Success makes `submitted` final; failure reopens the
     * latch and alerts with the timer's message iff the timer triggered the call.
     * `submitting` is false afterwards either way.
     */
    method Settle(success: bool) returns (alert: Option<string>)
      requires Valid()
      modifies this
      ensures Valid()
      ensures index == old(index) && answers == old(answers) && calls == old(calls)
      ensures !submitting && inFlight == None
      ensures old(inFlight) == None ==> alert == None && submitted == old(submitted)
                                        && latch == old(latch) && failures == old(failures)
      ensures old(inFlight).Some? && success ==> submitted && latch && alert == None
      ensures old(inFlight).Some? && !success ==>
        !submitted && !latch && failures == old(failures) + 1
        && alert == Some(if old(inFlight).value.auto then TimeUpMessage else FailedMessage)
    {
      alert := None;
      if inFlight.None? {
        return;
      }
      var auto := inFlight.value.auto;
      if success {
        submitted := true;
      } else {
        latch := false;
        failures := failures + 1;
        alert := Some(if auto then TimeUpMessage else FailedMessage);
      }
      submitting := false;
      inFlight := None;
    }

    /**
     * The timer's expiry effect re-runs (its `onExpire` is new): if time is up it
     * submits with `auto = true`. After a success the timer is no longer on screen.
     */
    method ExpiryEffect() returns (call: Option<Answers>)
      requires Valid()
      modifies this, timer
      ensures Valid()
      ensures index == old(index) && answers == old(answers) && submitted == old(submitted)
      ensures timer.secondsLeft == old(timer.secondsLeft) && timer.minutes == old(timer.minutes)
      ensures call.Some? ==> !old(latch) && timer.secondsLeft <= 0
                             && call == Some(answers) && inFlight == Some(Attempt(answers, true))
      ensures !old(submitted) && !old(latch) && timer.secondsLeft <= 0 ==> call.Some?
      ensures call.Some? <==> calls == old(calls) + [answers]
      ensures call.None? ==> calls == old(calls) && latch == old(latch) && inFlight == old(inFlight)
                             && submitting == old(submitting)
      ensures failures == old(failures)
      ensures !old(submitted) ==> (timer.ticking <==> timer.secondsLeft > 0)
      ensures old(submitted) ==> timer.ticking == old(timer.ticking)
    {
      call := None;
      if submitted {
        return;
      }
      var expired := timer.Effect();
      if expired {
        call := HandleSubmit(true);
      }
    }

    /** Mounting runs the timer's effect for the first time. */
    method Mount() returns (call: Option<Answers>)
      requires Valid()
      modifies this, timer
      ensures Valid()
      ensures index == old(index) && answers == old(answers) && submitted == old(submitted)
      ensures call.Some? <==> calls == old(calls) + [answers]
      ensures call.None? ==> calls == old(calls) && latch == old(latch) && inFlight == old(inFlight)
      ensures !old(submitted) && !old(latch) && timer.secondsLeft <= 0 ==> call.Some?
      ensures failures == old(failures)
      ensures call.Some? ==> call == Some(answers) && timer.secondsLeft <= 0
      ensures timer.secondsLeft == old(timer.secondsLeft)
      ensures !old(submitted) ==> (timer.ticking <==> timer.secondsLeft > 0)
    {
      call := ExpiryEffect();
    }

    /**
     * `selectAnswer(choice)`: the current question's entry becomes `choice` and no
     * other entry changes. The new answers re-create `handleSubmit` and so the timer's
     * `onExpire`, whose effect then re-runs.
     */
    method SelectAnswer(choice: string) returns (call: Option<Answers>)
      requires Valid()
      modifies this, timer
      ensures Valid()
      ensures answers == old(answers)[questions[index].questionId := choice]
      ensures index == old(index) && submitted == old(submitted)
      ensures call.Some? <==> calls == old(calls) + [answers]
      ensures call.Some? ==> !old(latch) && timer.secondsLeft <= 0
      ensures call.None? ==> calls == old(calls) && latch == old(latch) && inFlight == old(inFlight)
      ensures !old(submitted) && !old(latch) && timer.secondsLeft <= 0 ==> call.Some?
      ensures failures == old(failures)
      ensures call.Some? ==> call == Some(answers) && inFlight == Some(Attempt(answers, true))
      ensures timer.secondsLeft == old(timer.secondsLeft)
      ensures !old(submitted) ==> (timer.ticking <==> timer.secondsLeft > 0)
      ensures old(submitted) ==> timer.ticking == old(timer.ticking)
    {
      answers := answers[questions[index].questionId := choice];
      call := ExpiryEffect();
    }

    /** `goPrevious()`: one question back, never below the first. */
    method GoPrevious()
      requires Valid()
      modifies this
      ensures Valid()
      ensures index == if old(index) - 1 > 0 then old(index) - 1 else 0
      ensures answers == old(answers) && calls == old(calls) && latch == old(latch)
      ensures submitted == old(submitted) && inFlight == old(inFlight) && failures == old(failures)
    {
      index := if index - 1 > 0 then index - 1 else 0;
    }

    /** `goNext()`: one question on, never past the last. */
    method GoNext()
      requires Valid()
      modifies this
      ensures Valid()
      ensures index == if old(index) + 1 < |questions| - 1 then old(index) + 1 else |questions| - 1
      ensures answers == old(answers) && calls == old(calls) && latch == old(latch)
      ensures submitted == old(submitted) && inFlight == old(inFlight) && failures == old(failures)
    {
      index := if index + 1 < |questions| - 1 then index + 1 else |questions| - 1;
    }

    /** A click on the dot of question `target`. */
    method JumpTo(target: int)
      requires Valid() && 0 <= target < |questions|
      modifies this
      ensures Valid()
      ensures index == target
      ensures answers == old(answers) && calls == old(calls) && latch == old(latch)
      ensures submitted == old(submitted) && inFlight == old(inFlight) && failures == old(failures)
    {
      index := target;
    }

    /** One interval firing: the count goes down and, at zero, the exam is auto-submitted. */
    method Tick() returns (call: Option<Answers>)
      requires Valid()
      modifies this, timer
      ensures Valid()
      ensures index == old(index) && answers == old(answers) && submitted == old(submitted)
      ensures old(submitted) ==> timer.secondsLeft == old(timer.secondsLeft)
      ensures !old(submitted) && old(timer.ticking) ==> timer.secondsLeft == old(timer.secondsLeft) - 1
      ensures !old(timer.ticking) ==> timer.secondsLeft == old(timer.secondsLeft)
      ensures call.Some? <==> calls == old(calls) + [answers]
      ensures call.Some? ==> !old(latch) && timer.secondsLeft <= 0
      ensures call.None? ==> calls == old(calls) && latch == old(latch) && inFlight == old(inFlight)
      ensures !old(submitted) && !old(latch) && old(timer.ticking) && timer.secondsLeft <= 0 ==> call.Some?
      ensures failures == old(failures)
      ensures call.Some? ==> call == Some(answers) && inFlight == Some(Attempt(answers, true))
      ensures !old(submitted) && old(timer.ticking) ==> (timer.ticking <==> timer.secondsLeft > 0)
      ensures old(submitted) || !old(timer.ticking) ==> timer.ticking == old(timer.ticking)
    {
      call := None;
      if submitted {
        return;
      }
      var expired := timer.Tick();
      if expired {
        call := HandleSubmit(true);
      }
    }
  }

  /** What can happen to a mounted exam: user actions, interval firings, the promise settling. */
  datatype Event = Select(choice: string) | Previous | Next | Jump(target: int)
                 | Submit | TimerTick | Settled(success: bool)

  /** Dispatches one event; a jump to an index that has no dot cannot happen and does nothing. */
  method Step(r: Runner, e: Event) returns (call: Option<Answers>)
    requires r.Valid()
    modifies r, r.timer
    ensures r.Valid()
    ensures call.Some? <==> r.calls == old(r.calls) + [r.answers]
    ensures call.None? ==> r.calls == old(r.calls)
    ensures call.Some? ==> !old(r.latch) && call.value == r.answers
    ensures old(r.submitted) ==> r.submitted && call.None?
    ensures r.failures >= old(r.failures)
  {
    call := None;
    match e {
      case Select(choice) => call := r.SelectAnswer(choice);
      case Previous => r.GoPrevious();
      case Next => r.GoNext();
      case Jump(target) =>
        if 0 <= target < |r.questions| {
          r.JumpTo(target);
        }
      case Submit => call := r.HandleSubmit(false);
      case TimerTick => call := r.Tick();
      case Settled(success) => var _ := r.Settle(success);
    }
  }

  /**
   * Any sequence of events: after a success nothing more is sent, and every call but
   * one is preceded by a failed call, so the calls made number at most the failures
   * seen plus one (none more while a call is in flight or after success).
   */
  method Run(r: Runner, events: seq<Event>) returns (issued: seq<Answers>)
    requires r.Valid()
    modifies r, r.timer
    ensures r.Valid()
    ensures r.calls == old(r.calls) + issued
    ensures old(r.submitted) ==> r.submitted && issued == []
    ensures |issued| <= r.failures - old(r.failures) + (if old(r.latch) then 0 else 1)
  {
    issued := [];
    var i := 0;
    while i < |events|
      invariant 0 <= i <= |events|
      invariant r.Valid()
      invariant r.calls == old(r.calls) + issued
      invariant old(r.submitted) ==> r.submitted && issued == []
      invariant r.failures >= old(r.failures)
    {
      var call := Step(r, events[i]);
      if call.Some? {
        issued := issued + [call.value];
      }
      i := i + 1;
    }
  }

  /** Three questions, answered on the first and the last. */
  function SampleQuestions(): seq<Question>
  {
    [Question("q1", "First", ["a", "b"], 1), Question("q2", "Second", ["a", "b"], 1),
     Question("q3", "Third", ["c", "d"], 1)]
  }

  /** Unanswered ticks of an open exam bring the count down to its last second and send nothing. */
  method RunDown(r: Runner)
    requires r.Valid() && r.timer.ticking && !r.latch && !r.submitted
    modifies r, r.timer
    ensures r.Valid() && r.timer.ticking && r.timer.secondsLeft == 1
    ensures !r.latch && !r.submitted && r.calls == old(r.calls)
    ensures r.index == old(r.index) && r.answers == old(r.answers)
  {
    while r.timer.secondsLeft > 1
      invariant r.Valid() && r.timer.ticking && r.timer.secondsLeft >= 1
      invariant !r.latch && !r.submitted && r.calls == old(r.calls)
      invariant r.index == old(r.index) && r.answers == old(r.answers)
      decreases r.timer.secondsLeft
    {
      var _ := r.Tick();
    }
  }

  /**
   * A one-minute exam, answered `b` on q1 and `d` on q3 and left to run out: the
   * sixtieth tick sends those answers automatically, exactly once; when that call
   * fails the student sees the time-up message, and choosing an answer afterwards
   * re-runs the timer's effect, which submits again on its own.
   */
  method ExpiryScenario() returns (issued: seq<Answers>, alert: Option<string>)
    ensures issued == [map["q1" := "b", "q3" := "d"], map["q1" := "b", "q3" := "c"]]
    ensures alert == Some(TimeUpMessage)
  {
    var r := AnswerFirstAndLast();
    RunDown(r);
    var call := r.Tick();
    issued := [call.value];
    call := r.Tick();
    assert call == None;
    alert := r.Settle(false);
    assert r.index == 2 && !r.latch && !r.submitted && r.timer.secondsLeft == 0;
    call := r.SelectAnswer("c");
    assert r.answers == map["q1" := "b", "q3" := "c"];
    issued := issued + [call.value];
  }

  /** A fresh one-minute exam answered `b` on q1 and `d` on q3, on the last question, nothing sent. */
  method AnswerFirstAndLast() returns (r: Runner)
    ensures fresh(r) && fresh(r.timer) && r.Valid()
    ensures r.questions == SampleQuestions() && r.index == 2
    ensures r.answers == map["q1" := "b", "q3" := "d"]
    ensures r.timer.ticking && r.timer.secondsLeft == 60
    ensures !r.latch && !r.submitted && r.calls == []
  {
    r := new Runner(SampleQuestions(), 1);
    var call := r.Mount();
    call := r.SelectAnswer("b");
    r.GoNext();
    r.GoNext();
    call := r.SelectAnswer("d");
  }

  /**
   * A manual submit whose call is still in flight when time runs out: the expiry
   * makes no second call, and once the first succeeds nothing more is sent.
   */
  method ManualThenExpiryScenario() returns (issued: seq<Answers>)
    ensures issued == [map["q2" := "a"]]
  {
    var r := new Runner(SampleQuestions(), 1);
    var call := r.Mount();
    r.GoNext();
    call := r.SelectAnswer("a");
    call := r.HandleSubmit(false);
    issued := [call.value];
    var k := 0;
    while k < 60
      invariant 0 <= k <= 60
      invariant r.Valid() && r.inFlight.Some? && r.calls == issued
      invariant r.timer.secondsLeft == 60 - k && (r.timer.ticking <==> k < 60)
    {
      call := r.Tick();
      k := k + 1;
    }
    call := r.SelectAnswer("b");
    assert call == None;
    var _ := r.Settle(true);
    call := r.Tick();
    assert call == None;
    call := r.HandleSubmit(false);
    assert call == None;
    assert r.calls == issued;
  }
}
