/** The controller's main loop: one cycle reads the clock, may fall asleep
    after two minutes without a conversation, records five seconds of audio and
    then, depending on whether it sleeps, hushes the room when the reported
    root mean square exceeds 5000 (as written that never happens: see the
    `Loudness` module), wakes up on its name, or holds a conversation.

    The clock, the recording, the transcript and the assistant's reply are the
    inputs of a cycle (`Observation`); what the controller does is a list of
    `Action`s. `Step` is the transition of one cycle, `Run` of many, and
    `Controller` is the loop itself, proved to follow them. */
module Session {
  import opened Text
  import opened Emotions
  import opened Assistant
  import opened Loudness

  // ---------------------------------------------------------------------------
  // The wake word

  const WakeWord: string := "loki"

  /** `user_question and "loki" in user_question.lower()`: something was
      transcribed, it is not empty, and its lower-cased form holds "loki". */
  predicate Wakes(heard: Option<string>)
    ensures Wakes(heard) ==> heard.Some? && |Lower(heard.value)| >= |WakeWord|
  {
    heard.Some? && heard.value != [] && Contains(Lower(heard.value), WakeWord)
  }

  /** The test for an empty transcript adds nothing: no empty text holds the
      wake word. */
  lemma EmptyTestRedundant(heard: Option<string>)
    ensures Wakes(heard) <==> heard.Some? && Contains(Lower(heard.value), WakeWord)
  {
    if heard.Some? && heard.value == [] {
      assert Lower(heard.value) == [];
      assert !OccursAt([], WakeWord, 0);
    }
  }

  /** The wake word anywhere in the transcript wakes the controller, whatever
      surrounds it. */
  lemma {:induction false} WakesAnywhere(pre: string, post: string)
    ensures Wakes(Some(pre + WakeWord + post))
  {
    WakesWhenLowered(pre, WakeWord, post);
  }

  /** Any spelling whose lower-cased form is the wake word wakes the controller
      too ("LOKI", "Loki", and "LO\U{212A}I" with a KELVIN SIGN). */
  lemma {:induction false} WakesWhenLowered(pre: string, word: string, post: string)
    requires Lower(word) == WakeWord
    ensures Wakes(Some(pre + word + post))
  {
    var t := pre + word + post;
    LowerAppend(pre + word, post);
    LowerAppend(pre, word);
    var low := Lower(pre) + WakeWord + Lower(post);
    assert Lower(t) == low;
    assert OccursAt(low, WakeWord, |Lower(pre)|) by {
      assert low[|Lower(pre)|..|Lower(pre)| + 4] == WakeWord;
    }
    assert t != [] by {
      assert |t| >= |word| >= 1;
    }
  }

  /** Nothing transcribed never wakes the controller. */
  lemma NothingHeard()
    ensures !Wakes(None)
  {
  }

  /** "lokii" holds "loki", so it wakes the controller: the test is a substring
      test, not a word test. */
  lemma LongerWordWakes()
    ensures Wakes(Some("lokii"))
  {
    WakesAnywhere([], "i");
    assert [] + WakeWord + "i" == "lokii";
  }

  lemma UpperCaseWakes()
    ensures Wakes(Some("HEY LOKI"))
  {
    assert Lower("LOKI") == WakeWord;
    WakesWhenLowered("HEY ", "LOKI", []);
    assert "HEY " + "LOKI" + [] == "HEY LOKI";
  }

  lemma KelvinSignWakes()
    ensures Wakes(Some("LO\U{212A}I"))
  {
    assert Lower("LO\U{212A}I") == WakeWord;
    WakesWhenLowered([], "LO\U{212A}I", []);
    assert [] + "LO\U{212A}I" + [] == "LO\U{212A}I";
  }

  /** "lok" is too short to hold the wake word. */
  lemma ShortWordSleeps()
    ensures !Wakes(Some("lok"))
  {
    assert Lower("lok") == "lok";
    forall j | 0 <= j <= 3 ensures !OccursAt("lok", WakeWord, j) {
    }
  }

  // ---------------------------------------------------------------------------
  // One cycle

  /** Seconds without a conversation after which the controller falls asleep. */
  const IdleLimit: real := 120.0

  /** `sleep_mode` and `last_interaction_time`. */
  datatype State = State(asleep: bool, lastInteraction: real)

  /** What one cycle reads from the outside world: the clock at its start, the
      root mean square `record_audio` reports, the transcript (`None` when
      recognition failed), the assistant's raw reply should it be asked, and the
      clock when the conversation ends. */
  datatype Observation = Observation(
    now: real,
    rms: real,
    heard: Option<string>,
    answer: string,
    finishedAt: real)

  /** What the controller does, in order. */
  datatype Action =
    | Perform(e: Emotion)               // an emotion function, run to its end
    | StartSleeping                     // the `sleep` emotion on a new thread
    | Record                            // `record_audio`
    | Transcribe                        // `speech_to_text`
    | Respond(question: string, reply: Reply)  // `handle_interaction`
    | Pause                             // `time.sleep(1)`

  /** `rms > 5000`. For a non-negative root mean square this is its square, the
      mean square, exceeding 5000 squared. */
  predicate Noisy(o: Observation)
    ensures o.rms >= 0.0 ==> (Noisy(o) <==> Square(o.rms) > (NoiseLimit * NoiseLimit) as real)
  {
    AboveNoiseLimit(o.rms)
  }

  datatype Outcome = Outcome(next: State, actions: seq<Action>)

  /** The controller is awake and has had no conversation for too long. */
  predicate IdleTooLong(s: State, now: real)
    ensures IdleTooLong(s, now) ==> !s.asleep && now > s.lastInteraction + IdleLimit
  {
    !s.asleep && now - s.lastInteraction > IdleLimit
  }

  /** The inactivity check: fall asleep and start the sleep animation. */
  function IdleCheck(s: State, now: real): (r: Outcome)
    ensures r.next.asleep <==> SleepingAfterCheck(s, now)
    ensures r.next.lastInteraction == s.lastInteraction
    ensures StartSleeping in r.actions <==> IdleTooLong(s, now)
  {
    if IdleTooLong(s, now) then Outcome(s.(asleep := true), [StartSleeping])
    else Outcome(s, [])
  }

  /** The state the cycle's branch sees: asleep already or just fallen asleep. */
  predicate SleepingAfterCheck(s: State, now: real) {
    s.asleep || IdleTooLong(s, now)
  }

  /** One turn of the main loop, branch for branch, with the second inactivity
      check of the awake branch. */
  function Step(s: State, o: Observation): (r: Outcome)
    ensures r.next.asleep ==> SleepingAfterCheck(s, o.now)
    ensures !r.next.asleep ==> Wakes(o.heard) || !SleepingAfterCheck(s, o.now)
  {
    var first := IdleCheck(s, o.now);
    var s1 := first.next;
    var before := first.actions + [Record];
    if s1.asleep then
      if Noisy(o) then
        Outcome(s1.(lastInteraction := o.now), before + [Perform(Shush)])
      else if Wakes(o.heard) then
        Outcome(State(false, o.finishedAt),
                before + [Transcribe, Respond(o.heard.value, ParseReply(o.answer))])
      else
        Outcome(s1, before + [Transcribe, Pause])
    else if Wakes(o.heard) then
      Outcome(s1.(lastInteraction := o.finishedAt),
              before + [Transcribe, Respond(o.heard.value, ParseReply(o.answer)), Pause])
    else
      var second := IdleCheck(s1, o.now);
      Outcome(second.next, before + [Transcribe] + second.actions + [Pause])
  }

  /** The second inactivity check never fires: it runs only when the first left
      the controller awake, with the same clock and the same last interaction. */
  lemma RecheckNeverFires(s: State, now: real)
    requires !IdleCheck(s, now).next.asleep
    ensures IdleCheck(IdleCheck(s, now).next, now) == Outcome(IdleCheck(s, now).next, [])
  {
  }

  /** The sleep animation starts in a cycle exactly when the controller is awake
      and idle for more than two minutes at its start, and then only once. */
  lemma StartsSleepingOnlyWhenIdle(s: State, o: Observation)
    ensures StartSleeping in Step(s, o).actions <==> IdleTooLong(s, o.now)
    ensures multiset(Step(s, o).actions)[StartSleeping] == if IdleTooLong(s, o.now) then 1 else 0
  {
    if !SleepingAfterCheck(s, o.now) {
      RecheckNeverFires(s, o.now);
    }
  }

  /** After a cycle the controller sleeps exactly when it slept (or fell asleep)
      at the start and was not woken by its name in a quiet room. */
  lemma AsleepAfterStep(s: State, o: Observation)
    ensures Step(s, o).next.asleep <==>
      SleepingAfterCheck(s, o.now) && (Noisy(o) || !Wakes(o.heard))
  {
    if !SleepingAfterCheck(s, o.now) {
      RecheckNeverFires(s, o.now);
    }
  }

  /** A reported root mean square above 5000 is hushed exactly when the
      controller sleeps (as written the reported value never exceeds 5000: see
      `AsWrittenNeverHushes`); then it stays asleep, the clock at the cycle's start becomes the last interaction, and
      nothing is transcribed, answered or waited for. */
  lemma HushesOnlyWhileAsleep(s: State, o: Observation)
    ensures Perform(Shush) in Step(s, o).actions <==> SleepingAfterCheck(s, o.now) && Noisy(o)
    ensures SleepingAfterCheck(s, o.now) && Noisy(o) ==>
      Step(s, o).next == State(true, o.now) &&
      Transcribe !in Step(s, o).actions && Pause !in Step(s, o).actions &&
      forall a :: a in Step(s, o).actions ==> !a.Respond?
  {
    if !SleepingAfterCheck(s, o.now) {
      RecheckNeverFires(s, o.now);
    }
  }

  /** The controller answers exactly when its name is heard and it is not busy
      hushing; it answers the transcript with the parsed reply, is awake
      afterwards, and the end of the conversation becomes the last
      interaction. */
  lemma RespondsToWakeWord(s: State, o: Observation)
    ensures (exists a :: a in Step(s, o).actions && a.Respond?) <==>
      Wakes(o.heard) && !(SleepingAfterCheck(s, o.now) && Noisy(o))
    ensures Wakes(o.heard) && !(SleepingAfterCheck(s, o.now) && Noisy(o)) ==>
      Respond(o.heard.value, ParseReply(o.answer)) in Step(s, o).actions &&
      Step(s, o).next == State(false, o.finishedAt)
  {
    var out := Step(s, o);
    if Wakes(o.heard) && !(SleepingAfterCheck(s, o.now) && Noisy(o)) {
      assert Respond(o.heard.value, ParseReply(o.answer)) in out.actions;
    } else if !SleepingAfterCheck(s, o.now) {
      RecheckNeverFires(s, o.now);
    }
  }

  /** The last interaction moves only on a hush (to the cycle's start) or a
      conversation (to its end). */
  lemma LastInteractionMoves(s: State, o: Observation)
    ensures Step(s, o).next.lastInteraction == s.lastInteraction ||
      (Perform(Shush) in Step(s, o).actions && Step(s, o).next.lastInteraction == o.now) ||
      (Respond(o.heard.value, ParseReply(o.answer)) in Step(s, o).actions &&
       Step(s, o).next.lastInteraction == o.finishedAt)
  {
    if !SleepingAfterCheck(s, o.now) && !Wakes(o.heard) {
      RecheckNeverFires(s, o.now);
    }
  }

  /** The one-second pause is skipped exactly when a sleeping controller hushed
      the room or woke up. */
  lemma PausesUnlessSleepingBranchEnds(s: State, o: Observation)
    ensures Pause in Step(s, o).actions <==>
      !(SleepingAfterCheck(s, o.now) && (Noisy(o) || Wakes(o.heard)))
  {
    if !SleepingAfterCheck(s, o.now) && !Wakes(o.heard) {
      RecheckNeverFires(s, o.now);
    }
  }

  /** With the root mean square as `record_audio` computes it, from squares
      that wrap around in 16 bits, the controller never hushes the room: the
      mean square is at most 32767, so the root stays below 182. */
  lemma AsWrittenNeverHushes(s: State, o: Observation, samples: seq<int>)
    requires samples != []
    requires o.rms >= 0.0 && o.rms * o.rms == MeanSquareAsWritten(samples)
    ensures Perform(Shush) !in Step(s, o).actions
  {
    RootThreshold(o.rms);
    HushesOnlyWhileAsleep(s, o);
  }

  /** With the true root mean square of the recording, a sleeping controller
      hushes the room exactly when the recording is loud. */
  lemma HushesLoudRecording(s: State, o: Observation, samples: seq<int>)
    requires SleepingAfterCheck(s, o.now)
    requires samples != []
    requires o.rms >= 0.0 && o.rms * o.rms == MeanSquare(samples)
    ensures Perform(Shush) in Step(s, o).actions <==> Loud(samples)
  {
    RmsThreshold(samples, o.rms);
    HushesOnlyWhileAsleep(s, o);
  }

  /** Every cycle records exactly once. */
  lemma RecordsOnce(s: State, o: Observation)
    ensures multiset(Step(s, o).actions)[Record] == 1
  {
    if !SleepingAfterCheck(s, o.now) && !Wakes(o.heard) {
      RecheckNeverFires(s, o.now);
    }
  }

  // ---------------------------------------------------------------------------
  // Many cycles

  /** Cycles one after another, the last observation handled last. */
  function Run(s: State, os: seq<Observation>): (r: Outcome)
    ensures multiset(r.actions)[Record] == |os|
    decreases |os|
  {
    if os == [] then Outcome(s, [])
    else
      var before := Run(s, os[..|os| - 1]);
      var last := Step(before.next, os[|os| - 1]);
      RecordsOnce(before.next, os[|os| - 1]);
      Outcome(last.next, before.actions + last.actions)
  }

  /** The cycle after a prefix of a run extends that prefix's outcome. */
  lemma RunPrefix(s: State, os: seq<Observation>, i: nat)
    requires i < |os|
    ensures Run(s, os[..i + 1]) ==
      Outcome(Step(Run(s, os[..i]).next, os[i]).next, Run(s, os[..i]).actions + Step(Run(s, os[..i]).next, os[i]).actions)
  {
    assert os[..i + 1][..i] == os[..i];
  }

  /** The loop's invariant carries over one more cycle. */
  lemma RunContinues(start: State, os: seq<Observation>, i: nat,
                     before: State, doneBefore: seq<Action>, done: seq<Action>,
                     after: State, doneAfter: seq<Action>)
    requires i < |os|
    requires before == Run(start, os[..i]).next
    requires doneBefore == done + Run(start, os[..i]).actions
    requires after == Step(before, os[i]).next
    requires doneAfter == doneBefore + Step(before, os[i]).actions
    ensures after == Run(start, os[..i + 1]).next
    ensures doneAfter == done + Run(start, os[..i + 1]).actions
  {
    RunPrefix(start, os, i);
    ConcatAssociative(done, Run(start, os[..i]).actions, Step(before, os[i]).actions);
  }

  lemma ConcatAssociative<T>(a: seq<T>, b: seq<T>, c: seq<T>)
    ensures (a + b) + c == a + (b + c)
  {
  }

  /** How many conversations a list of actions holds. */
  function Conversations(actions: seq<Action>): nat {
    if actions == [] then 0
    else (if actions[0].Respond? then 1 else 0) + Conversations(actions[1..])
  }

  lemma {:induction false} ConversationsAppend(a: seq<Action>, b: seq<Action>)
    ensures Conversations(a + b) == Conversations(a) + Conversations(b)
  {
    if a == [] {
      assert a + b == b;
    } else {
      assert (a + b)[1..] == a[1..] + b;
      ConversationsAppend(a[1..], b);
    }
  }

  /** 1 while the controller is awake, 0 while it sleeps. */
  function AwakeCount(s: State): nat {
    if s.asleep then 0 else 1
  }

  /** In one cycle the sleep animation starts only if the controller was awake,
      and it leaves the controller awake only after a conversation or if it was
      awake already. */
  lemma {:induction false} StepBalance(s: State, o: Observation)
    ensures multiset(Step(s, o).actions)[StartSleeping] + AwakeCount(Step(s, o).next) <=
      Conversations(Step(s, o).actions) + AwakeCount(s)
  {
    StartsSleepingOnlyWhenIdle(s, o);
    AsleepAfterStep(s, o);
    RespondsToWakeWord(s, o);
    if Wakes(o.heard) && !(SleepingAfterCheck(s, o.now) && Noisy(o)) {
      ConversationsPositive(Step(s, o).actions, Respond(o.heard.value, ParseReply(o.answer)));
    }
  }

  lemma {:induction false} ConversationsPositive(actions: seq<Action>, a: Action)
    requires a in actions && a.Respond?
    ensures Conversations(actions) >= 1
  {
    if actions[0] != a {
      assert a in actions[1..];
      ConversationsPositive(actions[1..], a);
    }
  }

  /** Over any number of cycles, the sleep animation starts at most once more
      than there were conversations: after falling asleep the controller must be
      woken by its name before it can fall asleep again. */
  lemma {:induction false} SleepStartsBalanced(s: State, os: seq<Observation>)
    ensures multiset(Run(s, os).actions)[StartSleeping] + AwakeCount(Run(s, os).next) <=
      Conversations(Run(s, os).actions) + AwakeCount(s)
  {
    if os != [] {
      var before := Run(s, os[..|os| - 1]);
      SleepStartsBalanced(s, os[..|os| - 1]);
      StepBalance(before.next, os[|os| - 1]);
      ConversationsAppend(before.actions, Step(before.next, os[|os| - 1]).actions);
    }
  }

  /** A sleeping controller that never hears its name stays asleep, never
      answers and never starts the sleep animation again. */
  lemma {:induction false} SleepsThroughSilence(s: State, os: seq<Observation>)
    requires s.asleep
    requires forall k :: 0 <= k < |os| ==> !Wakes(os[k].heard)
    ensures Run(s, os).next.asleep
    ensures Conversations(Run(s, os).actions) == 0
    ensures StartSleeping !in Run(s, os).actions
  {
    if os != [] {
      var before := Run(s, os[..|os| - 1]);
      var o := os[|os| - 1];
      SleepsThroughSilence(s, os[..|os| - 1]);
      AsleepAfterStep(before.next, o);
      StartsSleepingOnlyWhenIdle(before.next, o);
      RespondsToWakeWord(before.next, o);
      NoConversations(Step(before.next, o).actions);
      ConversationsAppend(before.actions, Step(before.next, o).actions);
    }
  }

  lemma {:induction false} NoConversations(actions: seq<Action>)
    requires forall a :: a in actions ==> !a.Respond?
    ensures Conversations(actions) == 0
  {
    if actions != [] {
      assert actions[0] in actions;
      assert forall a :: a in actions[1..] ==> a in actions;
      NoConversations(actions[1..]);
    }
  }

  // ---------------------------------------------------------------------------
  // The loop

  /** The controller's loop state and everything it has done so far. */
  class Controller {
    var asleep: bool
    var lastInteraction: real
    var performed: seq<Action>

    function Current(): State
      reads this
    {
      State(asleep, lastInteraction)
    }

    /** Start-up: the neutral expression plays, then the clock is read. */
    constructor(startTime: real)
      ensures Current() == State(false, startTime)
      ensures performed == [Perform(Neutral)]
    {
      asleep := false;
      lastInteraction := startTime;
      performed := [Perform(Neutral)];
    }

    /** The inactivity check, which the loop makes twice. */
    method CheckIdle(currentTime: real)
      modifies this
      ensures Current() == IdleCheck(old(Current()), currentTime).next
      ensures performed == old(performed) + IdleCheck(old(Current()), currentTime).actions
    {
      if !asleep && currentTime - lastInteraction > IdleLimit {
        asleep := true;
        performed := performed + [StartSleeping];
      }
    }

    /** One turn of `while True`, statement for statement. */
    method Cycle(o: Observation)
      modifies this
      ensures Current() == Step(old(Current()), o).next
      ensures performed == old(performed) + Step(old(Current()), o).actions
    {
      var currentTime := o.now;
      CheckIdle(currentTime);
      performed := performed + [Record];
      if asleep {
        if Noisy(o) {
          performed := performed + [Perform(Shush)];
          lastInteraction := currentTime;
          return;
        }
        performed := performed + [Transcribe];
        if Wakes(o.heard) {
          asleep := false;
          performed := performed + [Respond(o.heard.value, ParseReply(o.answer))];
          lastInteraction := o.finishedAt;
          return;
        }
      } else {
        performed := performed + [Transcribe];
        if Wakes(o.heard) {
          performed := performed + [Respond(o.heard.value, ParseReply(o.answer))];
          lastInteraction := o.finishedAt;
        } else {
          CheckIdle(currentTime);
        }
      }
      performed := performed + [Pause];
    }

    /** The loop over a finite stretch of observations. */
    method RunCycles(os: seq<Observation>)
      modifies this
      ensures Current() == Run(old(Current()), os).next
      ensures performed == old(performed) + Run(old(Current()), os).actions
    {
      ghost var start, done := Current(), performed;
      for i := 0 to |os|
        invariant Current() == Run(start, os[..i]).next
        invariant performed == done + Run(start, os[..i]).actions
      {
        ghost var before := Current();
        ghost var doneBefore := performed;
        Cycle(os[i]);
        RunContinues(start, os, i, before, doneBefore, done, Current(), performed);
      }
      assert os[..|os|] == os;
    }
  }
}
