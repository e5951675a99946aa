/** Which commentator answers which question, and when nobody can answer one twice. */
module DebateAnswers {
  import opened Sequences
  import opened RingQueue
  import opened Debate
  import opened DebateInvariant
  import opened DebateHang
  import opened DebateProgress

  /** A commentator, from 0, and the number of questions asked when it queued its answer. */
  type Answers = seq<(int, int)>

  function RecordAnswer(log: Answers, s: State, a: Action): Answers
    requires Shape(s)
  {
    match a
    case Commentator(c, _) => if c < s.n && s.com[c].pc.E2? then log + [(c, s.mod.asked)] else log
    case _ => log
  }

  function AnswersOf(s: State, actions: seq<Action>): Answers
    requires Shape(s) && Run(s, actions).Some?
  {
    if actions == [] then [] else
      var before := actions[..|actions| - 1];
      RecordAnswer(AnswersOf(s, before), Run(s, before).value, actions[|actions| - 1])
  }

  // ---- One question, or none --------------------------------------------------------------------

  /** Has heard its question and not queued an answer. */
  predicate Thinking(pc: ComPc) {
    pc.W1? || pc.W2? || pc.P? || pc.E1? || pc.E2?
  }

  /** Nobody is in the record twice, and nobody in it can come to line 157 again. */
  predicate AnsweredOnce(s: State, log: Answers)
    requires Shape(s)
  {
    && (forall i :: 0 <= i < |log| ==>
          0 <= log[i].0 < s.n && s.com[log[i].0].round >= 1 && !Thinking(s.com[log[i].0].pc))
    && (forall i, j :: 0 <= i < j < |log| ==> log[i].0 != log[j].0)
    && (forall c :: 0 <= c < s.n ==> s.com[c].round >= if Thinking(s.com[c].pc) then 1 else 0)
  }

  lemma ComAnswersOnce(s: State, c: nat, choice: bool, log: Answers)
    requires Shape(s) && s.q <= 1 && AnsweredOnce(s, log) && c < s.n && ComStep(s, c, choice).Some?
    ensures var s' := ComStep(s, c, choice).value;
      Shape(s') && AnsweredOnce(s', RecordAnswer(log, s, Commentator(c, choice)))
  {
    ComKeepsShape(s, c, choice);
    var s' := ComStep(s, c, choice).value;
    assert forall d :: 0 <= d < s.n && d != c ==> s'.com[d] == s.com[d];
    var me, me' := s.com[c], s'.com[c];
    assert me'.round >= me.round >= if Thinking(me.pc) then 1 else 0;
    assert Thinking(me'.pc) ==> me'.round >= 1 && (Thinking(me.pc) || me.round < 1);
    assert me.pc.E2? ==> !Thinking(me'.pc);
    hide ComStep, Thinking;
  }

  lemma StepAnswersOnce(s: State, a: Action, log: Answers)
    requires Shape(s) && s.q <= 1 && AnsweredOnce(s, log) && Step(s, a).Some?
    ensures Shape(Step(s, a).value) && AnsweredOnce(Step(s, a).value, RecordAnswer(log, s, a))
  {
    StepKeepsShape(s, a);
    match a
    case Moderator => assert ModStep(s).value.com == s.com;
    case News(choice) => NewsLeavesAlone(s, choice);
    case Commentator(c, choice) => ComAnswersOnce(s, c, choice, log);
  }

  lemma {:induction false} RunAnswersOnce(n: nat, q: int, actions: seq<Action>)
    requires q <= 1 && Run(Init(n, q), actions).Some?
    ensures AnsweredOnce(Run(Init(n, q), actions).value, AnswersOf(Init(n, q), actions))
    decreases |actions|
  {
    if actions != [] {
      var before := actions[..|actions| - 1];
      RunAnswersOnce(n, q, before);
      StepAnswersOnce(Run(Init(n, q), before).value, actions[|actions| - 1], AnswersOf(Init(n, q), before));
    }
  }

  // ---- One commentator ------------------------------------------------------------------------------

  /** Between two questions. */
  predicate Idle(pc: ComPc) {
    pc.CLoop? || pc.W1? || pc.CDone?
  }

  /** Has unlocked `mutex1` for the moderator, and has `question_mutex` from line 163 on. */
  predicate Woken(pc: ComPc, question: bool) {
    pc.U2? || (question && (pc.L1? || pc.T1?))
  }

  /** Where a single commentator can be and how `question_mutex` and `mutex1` stand, for each
      part of the moderator's round. */
  predicate Fits(mod: ModPc, pc: ComPc, size: int, question: bool, mutex1: bool) {
    match mod
    case M0 => size == 0 && !pc.U1? && !pc.U2?
    case M1 | MLoop | A1 => question && !pc.W2? && !pc.U1? && !pc.U2? && (size == 0 || Idle(pc))
    case A2 | A3 | A4 =>
      question && mutex1 && !pc.W2? && !pc.U1? && !pc.U2? && !HasMutex1(pc) && (size == 0 || Idle(pc))
    case A5 => mutex1 && !pc.U1? && !pc.U2? && !HasMutex1(pc) && (size == 0 || (!pc.D? && !pc.F2?))
    case A6 | A7 => !pc.N2? && (pc.L2? ==> question) && (mutex1 || Woken(pc, question))
    case A8 => mutex1 && Woken(pc, question)
    case A9 | G1 | G2 | G3 | G4 | G5 | G6 =>
      pc.U2? || (question && (pc.L1? || pc.L2? || pc.T1? || Speaking(pc) || Idle(pc)))
    case MEnd | MDone => question && !pc.W2?
    case Wild => true
  }

  predicate SoloOk(s: State)
    requires Shape(s)
  {
    s.n == 1 ==>
      && Fits(s.mod.pc, s.com[0].pc, s.currentSize, Question in s.taken, Mutex1 in s.taken)
      && (HasMutex1(s.com[0].pc) ==> Mutex1 in s.taken) && (s.com[0].pc.W2? ==> Question in s.taken)
  }

  lemma NobodyInTurn(s: State, c: int)
    requires Inv(s) && s.mod.pc.G1? && s.queue.size == 0 && 0 <= c < s.n
    ensures !Waiting(s.com[c].pc) && !Speaking(s.com[c].pc)
  {
    TokenOf(s, c);
    assert Contents(s.queue) == [];
  }

  /** What a line of the commentator does to the two locks. */
  predicate LocksMoved(pc: ComPc, question: bool, question': bool, mutex1: bool, mutex1': bool) {
    && (pc.W1? || pc.U2? ==> !question) && (pc.L1? || pc.N1? ==> !mutex1)
    && question' == (pc.W1? || pc.U2? || (question && !pc.W2?))
    && mutex1' == (pc.L1? || pc.N1? || (mutex1 && !WillFree(pc)))
  }

  /** Where it can be after line `pc`, as far as it matters here; `wakes` says how the
      comparison of line 161 comes out, `mutex3` whether that lock is taken. */
  predicate Follows(pc: ComPc, pc': ComPc, wakes: bool, mutex3: bool) {
    && (pc'.W2? ==> pc.W1?) && (pc'.U1? ==> pc.D? && wakes) && (pc'.U2? ==> pc.U1?)
    && (pc'.L2? ==> pc.L1?) && (pc'.N2? ==> pc.N1?) && (pc'.D? ==> pc.F2?) && (pc'.F2? ==> pc.F1? && !mutex3)
    && (pc.U1? ==> pc'.U2?) && (pc.U2? ==> pc'.L1?) && (pc.L1? ==> pc'.L2?) && (pc.L2? ==> pc'.T1?) && (pc.T1? ==> Speaking(pc'))
    && (Speaking(pc) ==> Speaking(pc') || pc'.CLoop?) && (Idle(pc) ==> Idle(pc') || pc.W1?)
  }

  lemma ComMovesLocks(s: State, choice: bool)
    requires Shape(s) && s.n == 1 && ComStep(s, 0, choice).Some?
    ensures var s', pc := ComStep(s, 0, choice).value, s.com[0].pc;
      LocksMoved(pc, Question in s.taken, Question in s'.taken, Mutex1 in s.taken, Mutex1 in s'.taken)
  {
  }

  lemma ComLeavesAlone(s: State, choice: bool)
    requires Shape(s) && s.n == 1 && ComStep(s, 0, choice).Some?
    ensures var s' := ComStep(s, 0, choice).value;
      Shape(s') && s'.n == 1 && s'.mod == s.mod && s'.currentSize == s.currentSize
  {
    ComKeepsShape(s, 0, choice);
  }

  lemma ComFollows(s: State, choice: bool)
    requires Shape(s) && s.n == 1 && ComStep(s, 0, choice).Some? && |ComStep(s, 0, choice).value.com| == 1
    ensures Follows(s.com[0].pc, ComStep(s, 0, choice).value.com[0].pc, s.com[0].pos == s.currentSize - 1, Mutex3 in s.taken)
  {
    hide Push;
  }

  /** Each part of the round leads to where the next part expects the commentator. */
  lemma FitsOn(mod: ModPc, pc: ComPc, pc': ComPc, size: int, question: bool, question': bool, mutex1: bool, mutex1': bool,
               wakes: bool, mutex3: bool)
    requires Fits(mod, pc, size, question, mutex1) && (HasMutex1(pc) ==> mutex1) && (pc.W2? ==> question)
    requires LocksMoved(pc, question, question', mutex1, mutex1') && Follows(pc, pc', wakes, mutex3)
    requires pc.D? && size == 0 ==> !wakes
    requires HoldsMutex3(mod) ==> mutex3
    requires Speaking(pc') ==> Calling(mod)
    ensures Fits(mod, pc', size, question', mutex1') && (HasMutex1(pc') ==> mutex1') && (pc'.W2? ==> question')
  {
  }

  lemma ComKeepsSolo(s: State, choice: bool)
    requires Shape(s) && s.n == 1 && SoloOk(s) && ComStep(s, 0, choice).Some?
    requires Mutex3Ok(s) && PositionsOk(s) && OnlyCalledSpeaks(ComStep(s, 0, choice).value)
    ensures Shape(ComStep(s, 0, choice).value) && SoloOk(ComStep(s, 0, choice).value)
  {
    ComMovesLocks(s, choice);
    ComLeavesAlone(s, choice);
    ComFollows(s, choice);
    var s', wakes := ComStep(s, 0, choice).value, s.com[0].pos == s.currentSize - 1;
    assert s.com[0].pc.D? ==> s.com[0].pos >= 0;
    assert HoldsMutex3(s.mod.pc) ==> Mutex3 in s.taken;
    hide ComStep, Fits, LocksMoved, Follows, Mutex3Ok, PositionsOk, HoldsMutex3, HasMutex1, Speaking;
    FitsOn(s.mod.pc, s.com[0].pc, s'.com[0].pc, s.currentSize, Question in s.taken, Question in s'.taken,
           Mutex1 in s.taken, Mutex1 in s'.taken, wakes, Mutex3 in s.taken);
  }

  lemma ModKeepsSolo(s: State)
    requires Shape(s) && s.n == 1 && SoloOk(s) && ModStep(s).Some?
    requires s.mod.pc.G1? && s.queue.size == 0 ==> !Waiting(s.com[0].pc) && !Speaking(s.com[0].pc)
    ensures Shape(ModStep(s).value) && SoloOk(ModStep(s).value)
  {
    ModKeepsShape(s);
    assert ModStep(s).value.com == s.com;
    if BeforeAnswers(s.mod.pc) {
      ModFitsBefore(s);
    } else {
      ModFitsAfter(s);
    }
    hide ModStep, Fits, Waiting, Speaking, HasMutex1;
  }

  predicate BeforeAnswers(pc: ModPc) {
    pc.M0? || pc.M1? || pc.MLoop? || pc.A1? || pc.A2? || pc.A3? || pc.A4? || pc.A5?
  }

  lemma ModFitsBefore(s: State)
    requires Shape(s) && s.n == 1 && SoloOk(s) && ModStep(s).Some? && BeforeAnswers(s.mod.pc)
    ensures var s' := ModStep(s).value;
      && Fits(s'.mod.pc, s.com[0].pc, s'.currentSize, Question in s'.taken, Mutex1 in s'.taken)
      && (HasMutex1(s.com[0].pc) ==> Mutex1 in s'.taken) && (s.com[0].pc.W2? ==> Question in s'.taken)
  {
    hide Waiting, Speaking;
  }

  lemma ModFitsAfter(s: State)
    requires Shape(s) && s.n == 1 && SoloOk(s) && ModStep(s).Some? && !BeforeAnswers(s.mod.pc)
    requires s.mod.pc.G1? && s.queue.size == 0 ==> !Waiting(s.com[0].pc) && !Speaking(s.com[0].pc)
    ensures var s' := ModStep(s).value;
      && Fits(s'.mod.pc, s.com[0].pc, s'.currentSize, Question in s'.taken, Mutex1 in s'.taken)
      && (HasMutex1(s.com[0].pc) ==> Mutex1 in s'.taken) && (s.com[0].pc.W2? ==> Question in s'.taken)
  {
  }

  lemma StepKeepsSolo(s: State, a: Action)
    requires All(s) && SoloOk(s) && Step(s, a).Some?
    ensures All(Step(s, a).value) && SoloOk(Step(s, a).value)
  {
    StepKeepsAll(s, a);
    StepKeepsShape(s, a);
    var s' := Step(s, a).value;
    SpeakerIsCalled(s');
    hide SoloOk, Tokens, QueueOk, NewsOk, CurrOk, Mutex3Ok, PositionsOk, OnlyCalledSpeaks, ModStep, ComStep, NewsStep;
    if s.n == 1 {
      match a
      case Moderator =>
        if s.mod.pc.G1? && s.queue.size == 0 {
          NobodyInTurn(s, 0);
        }
        ModKeepsSolo(s);
      case Commentator(c, choice) => ComKeepsSolo(s, choice);
      case News(choice) => NewsKeepsSolo(s, choice);
    } else {
      OthersAreNotSolo(s');
    }
  }

  lemma OthersAreNotSolo(s: State)
    requires Shape(s) && s.n != 1
    ensures SoloOk(s)
  {
  }

  lemma NewsKeepsSolo(s: State, choice: bool)
    requires Shape(s) && SoloOk(s) && NewsStep(s, choice).Some? && Shape(NewsStep(s, choice).value)
    ensures SoloOk(NewsStep(s, choice).value)
  {
    NewsLeavesAlone(s, choice);
  }

  /** From the last answer to the next question. */
  predicate Resting(pc: ModPc) {
    pc.G1? || pc.G2? || pc.G3? || pc.G4? || pc.G5? || pc.G6? || pc.MLoop? || pc.MEnd? || pc.MDone?
  }

  /** No record is repeated.  Once the commentator has answered the latest question, it can
      only hear of another when `question_mutex` is free, and that takes another question. */
  predicate AnswersDiffer(s: State, log: Answers)
    requires Shape(s)
  {
    && Distinct(log)
    && (forall i :: 0 <= i < |log| ==> log[i].1 <= s.mod.asked && 0 <= log[i].0 < s.n)
    && (s.n == 1 && (0, s.mod.asked) in log ==>
          && (Waiting(s.com[0].pc) || Speaking(s.com[0].pc) || Idle(s.com[0].pc))
          && (Idle(s.com[0].pc) ==> Question in s.taken && Resting(s.mod.pc)))
  }

  lemma ModAnswersDiffer(s: State, log: Answers)
    requires Shape(s) && s.n == 1 && SoloOk(s) && AnswersDiffer(s, log) && ModStep(s).Some?
    requires !ModStep(s).value.mod.pc.Wild?
    requires s.mod.pc.G1? && s.queue.size == 0 ==> !Waiting(s.com[0].pc) && !Speaking(s.com[0].pc)
    ensures Shape(ModStep(s).value) && AnswersDiffer(ModStep(s).value, log)
  {
    ModKeepsShape(s);
    var s' := ModStep(s).value;
    assert s'.com == s.com;
    if s'.mod.asked == s.mod.asked {
      assert Resting(s.mod.pc) && Idle(s.com[0].pc) && Question in s.taken ==> Resting(s'.mod.pc) && Question in s'.taken;
    } else {
      assert s'.mod.asked == s.mod.asked + 1;
    }
    hide ModStep, Resting, Waiting, Speaking, SoloOk;
  }

  lemma ComAnswersDiffer(s: State, choice: bool, log: Answers)
    requires Shape(s) && s.n == 1 && SoloOk(s) && AnswersDiffer(s, log) && ComStep(s, 0, choice).Some?
    requires OnlyCalledSpeaks(s)
    ensures var s' := ComStep(s, 0, choice).value;
      Shape(s') && AnswersDiffer(s', RecordAnswer(log, s, Commentator(0, choice)))
  {
    ComKeepsShape(s, 0, choice);
    var s' := ComStep(s, 0, choice).value;
    assert s'.mod == s.mod;
    if s.com[0].pc.E2? {
      assert (0, s.mod.asked) !in log && Waiting(s'.com[0].pc);
    }
  }

  lemma StepAnswersDiffer(s: State, a: Action, log: Answers)
    requires All(s) && s.n == 1 && SoloOk(s) && AnswersDiffer(s, log) && Step(s, a).Some?
    ensures Shape(Step(s, a).value) && AnswersDiffer(Step(s, a).value, RecordAnswer(log, s, a))
  {
    StepKeepsShape(s, a);
    StepKeepsInv(s, a);
    SpeakerIsCalled(s);
    assert !Step(s, a).value.mod.pc.Wild?;
    hide SoloOk, Tokens, QueueOk, NewsOk, CurrOk, Mutex3Ok, Held, OnlyCalledSpeaks, ModStep, ComStep, NewsStep;
    match a
    case Moderator =>
      if s.mod.pc.G1? && s.queue.size == 0 {
        NobodyInTurn(s, 0);
      }
      ModAnswersDiffer(s, log);
    case Commentator(c, choice) => ComAnswersDiffer(s, choice, log);
    case News(choice) => NewsLeavesAlone(s, choice);
  }

  lemma {:induction false} RunAnswersDiffer(q: int, actions: seq<Action>)
    requires Run(Init(1, q), actions).Some?
    ensures var s := Run(Init(1, q), actions).value;
      All(s) && SoloOk(s) && AnswersDiffer(s, AnswersOf(Init(1, q), actions))
    decreases |actions|
  {
    RunKeepsAll(1, q, actions);
    if actions != [] {
      var before, a := actions[..|actions| - 1], actions[|actions| - 1];
      RunAnswersDiffer(q, before);
      var s := Run(Init(1, q), before).value;
      hide All, SoloOk, AnswersDiffer, Step;
      StepKeepsSolo(s, a);
      StepAnswersDiffer(s, a, AnswersOf(Init(1, q), before));
    }
  }

  // ---- Both ------------------------------------------------------------------------------------------

  /** With one commentator, or one question, no commentator ever answers a question twice. */
  lemma AnswersAreDistinct(n: nat, q: int, actions: seq<Action>)
    requires (n <= 1 || q <= 1) && Run(Init(n, q), actions).Some?
    ensures Distinct(AnswersOf(Init(n, q), actions))
  {
    if q <= 1 {
      RunAnswersOnce(n, q, actions);
    } else if n == 1 {
      RunAnswersDiffer(q, actions);
    } else {
      NobodyAnswers(q, actions);
    }
  }

  lemma {:induction false} NobodyAnswers(q: int, actions: seq<Action>)
    requires Run(Init(0, q), actions).Some?
    ensures AnswersOf(Init(0, q), actions) == []
    decreases |actions|
  {
    if actions != [] {
      NobodyAnswers(q, actions[..|actions| - 1]);
    }
  }
}
