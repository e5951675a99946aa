/** When the moderator can take another step, wherever it is.  It can hang at two lines of
    prj2/main.c: at 94, where it waits for an answer, and at 105, where it waits for the
    commentator it has called. */
module DebateProgress {
  import opened Wrappers
  import opened Debate
  import opened DebateInvariant
  import opened DebateHang

  /** Some continuation of the run has the moderator somewhere else. */
  ghost predicate CanMove(s: State)
    requires Shape(s)
  {
    exists more :: Run(s, more).Some? && Run(s, more).value.mod != s.mod
  }

  /** The moderator waits at line 105 for a commentator that must take `question_mutex` before
      it can speak, while that lock is with a commentator that keeps it for the moderator to
      release. */
  predicate StuckAtCall(s: State) {
    && Shape(s) && s.mod.pc.G6? && 1 <= s.mod.idx <= s.n
    && Done(Called(s)) in s.taken && Question in s.taken
    && (s.com[Called(s)].pc.U1? || s.com[Called(s)].pc.U2? || WillWake(s, Called(s)))
    && forall c :: 0 <= c < s.n ==> !s.com[c].pc.W2?
  }

  // ---- Who holds which lock --------------------------------------------------------------------

  predicate ModHoldsMutex1(pc: ModPc) {
    pc.A2? || pc.A3? || pc.A4? || pc.A5? || pc.A6? || pc.A7? || pc.A8?
  }

  predicate HasMutex1(pc: ComPc) {
    pc.L2? || pc.N2?
  }

  predicate AtMutex1(s: State, c: int)
    requires Shape(s)
  {
    0 <= c < s.n && HasMutex1(s.com[c].pc)
  }

  /** A taken `mutex1` has a holder, or the moderator had it. */
  ghost predicate Mutex1Held(s: State)
    requires Shape(s)
  {
    Mutex1 in s.taken ==> ModHoldsMutex1(s.mod.pc) || exists c :: AtMutex1(s, c)
  }

  /** From behind `lock(mutex2)` to its release. */
  predicate InSpeech(pc: ComPc) {
    pc.S2? || pc.S3? || pc.S4? || pc.S5? || pc.S6? || pc.S7?
  }

  /** Nobody takes `mutex2` before the moderator, and while it waits for a speaker nobody else
      does. */
  predicate Mutex2Held(s: State)
    requires Shape(s)
  {
    && (s.mod.pc.M0? || s.mod.pc.M1? ==> Mutex2 !in s.taken)
    && (s.mod.pc.G6? && Mutex2 in s.taken ==> 1 <= s.mod.idx <= s.n && InSpeech(s.com[Called(s)].pc))
  }

  predicate AtW2(s: State, c: int)
    requires Shape(s)
  {
    0 <= c < s.n && s.com[c].pc.W2?
  }

  /** Positions are real ones. */
  predicate PositionsOk(s: State)
    requires Shape(s)
  {
    forall c :: 0 <= c < s.n && (s.com[c].pc.F1? || s.com[c].pc.F2? || s.com[c].pc.D?) ==> s.com[c].pos >= 0
  }

  predicate NobodyWoke(s: State)
    requires Shape(s)
  {
    forall c :: 0 <= c < s.n ==> !s.com[c].pc.U1? && !s.com[c].pc.U2?
  }

  /** Before the moderator has taken `question_mutex`, it is only ever held on the way through
      line 123. */
  ghost predicate QuestionHeld(s: State)
    requires Shape(s)
  {
    s.mod.pc.M0? ==> s.currentSize == 0 && NobodyWoke(s) && (Question in s.taken ==> exists c :: AtW2(s, c))
  }

  ghost predicate Held(s: State)
    requires Shape(s)
  {
    Mutex1Held(s) && Mutex2Held(s) && PositionsOk(s) && QuestionHeld(s)
  }

  lemma ModKeepsHeld(s: State)
    requires Shape(s) && Held(s) && ModStep(s).Some?
    ensures Shape(ModStep(s).value) && Held(ModStep(s).value)
  {
    ModKeepsShape(s);
    var s' := ModStep(s).value;
    assert s'.com == s.com;
    if c :| AtMutex1(s, c) {
      assert AtMutex1(s', c);
    }
  }

  lemma ComKeepsMutex1(s: State, c: nat, choice: bool)
    requires Shape(s) && Mutex1Held(s) && c < s.n && ComStep(s, c, choice).Some?
    ensures Shape(ComStep(s, c, choice).value) && Mutex1Held(ComStep(s, c, choice).value)
  {
    ComKeepsShape(s, c, choice);
    var s' := ComStep(s, c, choice).value;
    assert s'.mod == s.mod;
    if s.com[c].pc.L1? || s.com[c].pc.N1? {
      assert AtMutex1(s', c);
    } else if d :| AtMutex1(s, d) && d != c {
      assert AtMutex1(s', d);
    }
  }

  lemma ComKeepsMutex2(s: State, c: nat, choice: bool)
    requires Shape(s) && Mutex2Held(s) && OnlyCalledSpeaks(s) && c < s.n && ComStep(s, c, choice).Some?
    ensures Shape(ComStep(s, c, choice).value) && Mutex2Held(ComStep(s, c, choice).value)
  {
    ComKeepsShape(s, c, choice);
    var s' := ComStep(s, c, choice).value;
    assert s'.mod == s.mod;
    if !Speaking(s.com[c].pc) {
      assert Mutex2 in s'.taken <==> Mutex2 in s.taken;
      assert !InSpeech(s.com[c].pc);
    }
  }

  lemma ComKeepsPositions(s: State, c: nat, choice: bool)
    requires Shape(s) && PositionsOk(s) && c < s.n && ComStep(s, c, choice).Some?
    requires s.queue.size >= 0 && (s.com[c].pc.E1? ==> s.queue.size < s.n)
    ensures Shape(ComStep(s, c, choice).value) && PositionsOk(ComStep(s, c, choice).value)
  {
    ComKeepsShape(s, c, choice);
  }

  lemma ComKeepsQuestion(s: State, c: nat, choice: bool)
    requires Shape(s) && PositionsOk(s) && QuestionHeld(s) && c < s.n && ComStep(s, c, choice).Some?
    ensures Shape(ComStep(s, c, choice).value) && QuestionHeld(ComStep(s, c, choice).value)
  {
    ComKeepsShape(s, c, choice);
    var s' := ComStep(s, c, choice).value;
    assert s'.mod == s.mod && s'.currentSize == s.currentSize;
    if s.com[c].pc.W1? {
      assert AtW2(s', c);
    } else if d :| AtW2(s, d) && d != c {
      assert AtW2(s', d);
    }
  }

  lemma ComKeepsHeld(s: State, c: nat, choice: bool)
    requires Inv(s) && Held(s) && c < s.n && ComStep(s, c, choice).Some?
    ensures Shape(ComStep(s, c, choice).value) && Held(ComStep(s, c, choice).value)
  {
    SpeakerIsCalled(s);
    if s.com[c].pc.E1? {
      TokenOf(s, c);
      RoomFor(s, c);
    }
    hide ComStep, Mutex1Held, Mutex2Held, PositionsOk, QuestionHeld, Tokens, NewsOk, CurrOk, Mutex3Ok;
    ComKeepsMutex1(s, c, choice);
    ComKeepsMutex2(s, c, choice);
    ComKeepsPositions(s, c, choice);
    ComKeepsQuestion(s, c, choice);
  }

  lemma NewsKeepsHeld(s: State, choice: bool)
    requires Shape(s) && Held(s) && NewsStep(s, choice).Some?
    ensures Shape(NewsStep(s, choice).value) && Held(NewsStep(s, choice).value)
  {
    var s' := NewsStep(s, choice).value;
    NewsLeavesAlone(s, choice);
    hide NewsStep;
    if c :| AtMutex1(s, c) {
      assert AtMutex1(s', c);
    }
    if c :| AtW2(s, c) {
      assert AtW2(s', c);
    }
  }

  ghost predicate All(s: State) {
    Known(s) && Held(s)
  }

  lemma StepKeepsAll(s: State, a: Action)
    requires All(s) && Step(s, a).Some?
    ensures All(Step(s, a).value)
  {
    StepKeepsKnown(s, a);
    hide Inv, Held, SizeOk, Mutex3Held;
    match a
    case Moderator => ModKeepsHeld(s);
    case Commentator(c, choice) => ComKeepsHeld(s, c, choice);
    case News(choice) => NewsKeepsHeld(s, choice);
  }

  lemma {:induction false} RunKeepsAll(n: nat, q: int, actions: seq<Action>)
    requires Run(Init(n, q), actions).Some?
    ensures All(Run(Init(n, q), actions).value)
    decreases |actions|
  {
    if actions == [] {
      InitInv(n, q);
    } else {
      var before := actions[..|actions| - 1];
      RunKeepsAll(n, q, before);
      StepKeepsAll(Run(Init(n, q), before).value, actions[|actions| - 1]);
    }
  }

  // ---- Stuck at a call is for ever -----------------------------------------------------------------

  lemma ComKeepsStuckCall(s: State, c: nat, choice: bool)
    requires StuckAtCall(s) && c < s.n && ComStep(s, c, choice).Some?
    ensures StuckAtCall(ComStep(s, c, choice).value) && ComStep(s, c, choice).value.mod == s.mod
  {
    ComKeepsShape(s, c, choice);
    var s' := ComStep(s, c, choice).value;
    assert s'.mod == s.mod && s'.currentSize == s.currentSize && !s.com[c].pc.W2?;
    assert Question in s'.taken && Done(Called(s)) in s'.taken;
    assert forall d :: 0 <= d < s.n && d != c ==> s'.com[d] == s.com[d];
  }

  lemma StepKeepsStuckCall(s: State, a: Action)
    requires StuckAtCall(s) && Step(s, a).Some?
    ensures StuckAtCall(Step(s, a).value) && Step(s, a).value.mod == s.mod
  {
    StepKeepsShape(s, a);
    match a
    case Moderator =>
    case News(choice) => NewsLeavesAlone(s, choice);
    case Commentator(c, choice) => ComKeepsStuckCall(s, c, choice);
  }

  /** Once stuck at a call, always stuck there. */
  lemma {:induction false} StuckAtCallIsForever(s: State, more: seq<Action>)
    requires StuckAtCall(s) && Run(s, more).Some?
    ensures StuckAtCall(Run(s, more).value) && Run(s, more).value.mod == s.mod
    decreases |more|
  {
    if more != [] {
      var before := more[..|more| - 1];
      StuckAtCallIsForever(s, before);
      StepKeepsStuckCall(Run(s, before).value, more[|more| - 1]);
    }
  }

  lemma StuckNeverMoves(s: State)
    requires All(s) && (Stuck(s) || StuckAtCall(s))
    ensures !CanMove(s)
  {
    assert Shape(s);
    hide Known, Held, Stuck, StuckAtCall;
    forall more | Run(s, more).Some?
      ensures Run(s, more).value.mod == s.mod
    {
      if Stuck(s) {
        StuckIsForever(s, more);
      } else {
        StuckAtCallIsForever(s, more);
      }
    }
  }

  // ---- Otherwise there is a way on ------------------------------------------------------------------

  lemma MoveAfter(s: State, a: Action)
    requires Shape(s) && Step(s, a).Some? && Shape(Step(s, a).value)
    requires Step(s, a).value.mod == s.mod && CanMove(Step(s, a).value)
    ensures CanMove(s)
  {
    var s' := Step(s, a).value;
    var more :| Run(s', more).Some? && Run(s', more).value.mod != s'.mod;
    RunPrepend(s, a, more);
    assert Run(s, [a] + more).Some?;
  }

  lemma MoveNow(s: State)
    requires Shape(s) && ModStep(s).Some?
    ensures CanMove(s)
  {
    ModKeepsShape(s);
    var s' := ModStep(s).value;
    assert s'.mod != s.mod;
    RunPrepend(s, Moderator, []);
    assert Run(s', []) == Some(s');
    assert Run(s, [Moderator] + []).Some?;
  }

  /** A step of another thread. */
  lemma OtherStep(s: State, a: Action)
    requires All(s) && Step(s, a).Some? && !a.Moderator?
    ensures var s' := Step(s, a).value; All(s') && s'.mod == s.mod && s'.n == s.n && s'.currentSize == s.currentSize
  {
    StepKeepsAll(s, a);
    StepKeepsShape(s, a);
    hide All;
    match a
    case Commentator(c, choice) =>
    case News(choice) => NewsLeavesAlone(s, choice);
  }

  // ---- A turn comes to its end ------------------------------------------------------------------------

  /** The moderator waits for commentator `c`. */
  ghost predicate Turn(s: State, c: int) {
    All(s) && s.mod.pc.G6? && 0 <= c < s.n && Called(s) == c
  }

  /** `s` is as it is for `c`, and a way on from it is a way on from `before`. */
  ghost predicate Later(before: State, s: State, c: int) {
    && Turn(before, c) && Turn(s, c) && (CanMove(s) ==> CanMove(before))
    && s.mod == before.mod && s.currentSize == before.currentSize
  }

  lemma Lets(s: State, c: int, d: nat, choice: bool) returns (s': State)
    requires Turn(s, c) && d < s.n && ComStep(s, d, choice).Some?
    ensures s' == ComStep(s, d, choice).value && Later(s, s', c)
  {
    s' := ComStep(s, d, choice).value;
    OtherStep(s, Commentator(d, choice));
    assert Shape(s);
    hide All, CanMove;
    if CanMove(s') {
      MoveAfter(s, Commentator(d, choice));
    }
  }

  lemma LetsNews(s: State, c: int) returns (s': State)
    requires Turn(s, c) && OnAir(s.news)
    ensures s' == NewsStep(s, false).value && Later(s, s', c) && s'.com == s.com
  {
    s' := NewsStep(s, false).value;
    OtherStep(s, News(false));
    NewsLeavesAlone(s, false);
    assert Shape(s);
    hide All, CanMove;
    if CanMove(s') {
      MoveAfter(s, News(false));
    }
  }

  predicate NeedsQuestion(s: State, c: int)
    requires Shape(s) && 0 <= c < s.n
  {
    s.com[c].pc.U1? || s.com[c].pc.U2? || WillWake(s, c)
  }

  predicate InTurn(s: State, c: int)
    requires Shape(s) && 0 <= c < s.n
  {
    Waiting(s.com[c].pc) || Speaking(s.com[c].pc)
  }

  lemma GateIsOpen(s: State, c: int)
    requires Turn(s, c) && s.com[c].pc.T1?
    ensures Gate(c) !in s.taken || Done(c) !in s.taken
  {
    TokenOf(s, c);
  }

  lemma FreesMutex3(s: State, c: int) returns (s': State)
    requires Turn(s, c) && s.com[c].pc.F1? && Mutex3 in s.taken
    ensures Later(s, s', c) && s'.com[c] == s.com[c] && Mutex3 !in s'.taken && s'.taken <= s.taken
  {
    var d :| AtF2(s, d);
    s' := Lets(s, c, d, false);
  }

  lemma FreesMutex1(s: State, c: int) returns (s': State)
    requires Turn(s, c) && s.com[c].pc.L1? && Mutex1 in s.taken
    ensures Later(s, s', c) && s'.com[c] == s.com[c] && Mutex1 !in s'.taken && s'.taken <= s.taken
  {
    var d :| AtMutex1(s, d);
    s' := Lets(s, c, d, false);
  }

  lemma FreesNews(s: State, c: int) returns (s': State)
    requires Turn(s, c) && s.com[c].pc.S3? && BreakingNews in s.taken
    ensures Later(s, s', c) && s'.com[c] == s.com[c] && BreakingNews !in s'.taken && s'.taken <= s.taken
  {
    assert OnAir(s.news);
    s' := s;
    if s.news.B3? {
      s' := LetsNews(s, c);
    }
    s' := LetsNews(s', c);
  }

  lemma FreesQuestion(s: State, c: int, d: int) returns (s': State)
    requires Turn(s, c) && NeedsQuestion(s, c) && AtW2(s, d)
    ensures Later(s, s', c) && s'.com[c] == s.com[c] && Question !in s'.taken
    ensures Done(c) in s.taken ==> Done(c) in s'.taken
  {
    s' := Lets(s, c, d, false);
  }

  /** Whatever is in the way of `c` goes away, `question_mutex` aside. */
  lemma Unblocks(s: State, c: int) returns (s': State)
    requires Turn(s, c)
    ensures Later(s, s', c) && s'.com[c] == s.com[c] && s'.taken <= s.taken
    ensures s.com[c].pc.F1? ==> Mutex3 !in s'.taken
    ensures s.com[c].pc.L1? ==> Mutex1 !in s'.taken
    ensures s.com[c].pc.S3? ==> BreakingNews !in s'.taken
  {
    if s.com[c].pc.F1? && Mutex3 in s.taken {
      s' := FreesMutex3(s, c);
    } else if s.com[c].pc.L1? && Mutex1 in s.taken {
      s' := FreesMutex1(s, c);
    } else if s.com[c].pc.S3? && BreakingNews in s.taken {
      s' := FreesNews(s, c);
    } else {
      s' := s;
    }
  }

  /** The next line of `c` can then be taken. */
  lemma CanGoOn(s: State, c: int)
    requires Turn(s, c) && InTurn(s, c) && Done(c) in s.taken && (NeedsQuestion(s, c) ==> Question !in s.taken)
    requires s.com[c].pc.F1? ==> Mutex3 !in s.taken
    requires s.com[c].pc.L1? ==> Mutex1 !in s.taken
    requires s.com[c].pc.S3? ==> BreakingNews !in s.taken
    ensures ComStep(s, c, false).Some?
  {
    if s.com[c].pc.T1? {
      GateIsOpen(s, c);
    }
  }

  /** Lines left to the end of a turn in which no slice of speaking is left. */
  function Left(pc: ComPc): nat {
    match pc
    case F1 => 16 case F2 => 15 case D => 14 case U1 => 13 case U2 => 12 case L1 => 11 case L2 => 10
    case T1 => 9 case S1 => 8 case S3 => 7 case S4 => 6 case S5 => 5 case S2 => 4 case S6 => 3
    case S7 => 2 case S8 => 1
    case _ => 0
  }

  lemma NextLine(s: State, c: int)
    requires Shape(s) && 0 <= c < s.n && InTurn(s, c) && ComStep(s, c, false).Some?
    requires NeedsQuestion(s, c) ==> Question !in s.taken
    ensures var s' := ComStep(s, c, false).value;
      && Shape(s') && s'.n == s.n && Left(s'.com[c].pc) < Left(s.com[c].pc)
      && (Done(c) in s'.taken && Done(c) in s.taken ==>
            InTurn(s', c) && (NeedsQuestion(s', c) ==> Question !in s'.taken))
  {
    ComKeepsShape(s, c, false);
  }

  lemma GoesOn(s: State, c: int) returns (s': State)
    requires Turn(s, c) && InTurn(s, c) && Done(c) in s.taken && (NeedsQuestion(s, c) ==> Question !in s.taken)
    requires ComStep(s, c, false).Some?
    ensures Later(s, s', c) && Left(s'.com[c].pc) < Left(s.com[c].pc)
    ensures Done(c) in s'.taken ==> InTurn(s', c) && (NeedsQuestion(s', c) ==> Question !in s'.taken)
  {
    assert Shape(s);
    hide All, Later, InTurn, NeedsQuestion, ComStep, Left, Shape;
    NextLine(s, c);
    s' := Lets(s, c, c, false);
  }

  lemma MovesWhenDone(s: State, c: int)
    requires Turn(s, c) && Done(c) !in s.taken
    ensures CanMove(s)
  {
    assert Shape(s);
    hide All, CanMove;
    MoveNow(s);
  }

  /** A called commentator that needs no lock but those that come free can take its turn and
      hand it back. */
  lemma {:induction false} TurnEnds(s: State, c: int)
    requires Turn(s, c) && (Done(c) in s.taken ==> InTurn(s, c) && (NeedsQuestion(s, c) ==> Question !in s.taken))
    ensures CanMove(s)
    decreases Left(s.com[c].pc)
  {
    if Done(c) !in s.taken {
      MovesWhenDone(s, c);
    } else {
      var s1 := Unblocks(s, c);
      if Done(c) !in s1.taken {
        MovesWhenDone(s1, c);
      } else {
        CanGoOn(s1, c);
        var s2 := GoesOn(s1, c);
        TurnEnds(s2, c);
      }
    }
  }

  lemma CalledIsInTurn(s: State)
    requires All(s) && s.mod.pc.G6?
    ensures Turn(s, Called(s)) && (Done(Called(s)) in s.taken ==> InTurn(s, Called(s)))
  {
    TokenOf(s, Called(s));
  }

  lemma CallReturns(s: State)
    requires All(s) && s.mod.pc.G6? && !StuckAtCall(s)
    ensures CanMove(s)
  {
    CalledIsInTurn(s);
    var c := Called(s);
    hide All, Held, Known;
    if Done(c) in s.taken && NeedsQuestion(s, c) && Question in s.taken {
      var d :| 0 <= d < s.n && s.com[d].pc.W2?;
      assert AtW2(s, d);
      var s' := FreesQuestion(s, c, d);
      TurnEnds(s', c);
    } else {
      TurnEnds(s, c);
    }
  }

  // ---- Elsewhere -------------------------------------------------------------------------------------------

  lemma MovesAfterCom(s: State, d: nat)
    requires All(s) && d < s.n && ComStep(s, d, false).Some?
    requires var s' := ComStep(s, d, false).value; Shape(s') && ModStep(s').Some?
    ensures CanMove(s)
  {
    OtherStep(s, Commentator(d, false));
    MoveNow(ComStep(s, d, false).value);
    MoveAfter(s, Commentator(d, false));
  }

  lemma MovesWhenLocked(s: State, d: int)
    requires All(s)
    requires (s.mod.pc.M0? && AtW2(s, d)) || (s.mod.pc.A1? && AtMutex1(s, d)) || (s.mod.pc.A3? && AtF2(s, d))
    ensures CanMove(s)
  {
    assert Shape(s);
    hide All, CanMove;
    ComKeepsShape(s, d, false);
    MovesAfterCom(s, d);
  }

  lemma MovesAfterNews(s: State)
    requires All(s) && s.mod.pc.A2? && OnAir(s.news)
    ensures CanMove(s)
  {
    var s' := NewsStep(s, false).value;
    OtherStep(s, News(false));
    if s.news.B3? {
      MovesAfterNews4(s');
    } else {
      MoveNow(s');
    }
    MoveAfter(s, News(false));
  }

  lemma MovesAfterNews4(s: State)
    requires All(s) && s.mod.pc.A2? && s.news.B4?
    ensures CanMove(s)
  {
    OtherStep(s, News(false));
    MoveNow(NewsStep(s, false).value);
    MoveAfter(s, News(false));
  }

  lemma MovesElsewhere(s: State)
    requires All(s) && !s.mod.pc.MDone? && !s.mod.pc.A7? && !s.mod.pc.G6?
    ensures CanMove(s)
  {
    SpeakerIsCalled(s);
    if ModStep(s).Some? {
      MoveNow(s);
    } else if s.mod.pc.M0? {
      var d :| AtW2(s, d);
      MovesWhenLocked(s, d);
    } else if s.mod.pc.A1? {
      var d :| AtMutex1(s, d);
      MovesWhenLocked(s, d);
    } else if s.mod.pc.A2? {
      MovesAfterNews(s);
    } else if s.mod.pc.A3? {
      var d :| AtF2(s, d);
      MovesWhenLocked(s, d);
    }
  }

  lemma MovesAtAnswer(s: State)
    requires All(s) && s.mod.pc.A7? && !Stuck(s)
    ensures CanMove(s)
  {
    OthersPass(s);
    var more :| Run(s, more).Some? && !Run(s, more).value.mod.pc.A7?;
    assert Run(s, more).value.mod != s.mod;
  }

  /** The exact condition for the moderator to hang, in every reachable state and wherever it
      is: as long as it has not returned, some continuation takes it on if and only if the
      state is stuck neither at line 94 nor at line 105. */
  lemma MovesIffNotStuck(n: nat, q: int, actions: seq<Action>, s: State)
    requires Run(Init(n, q), actions) == Some(s) && !s.mod.pc.MDone?
    ensures CanMove(s) <==> !Stuck(s) && !StuckAtCall(s)
  {
    RunKeepsAll(n, q, actions);
    hide All;
    if Stuck(s) || StuckAtCall(s) {
      StuckNeverMoves(s);
    } else if s.mod.pc.G6? {
      CallReturns(s);
    } else if s.mod.pc.A7? {
      MovesAtAnswer(s);
    } else {
      MovesElsewhere(s);
    }
  }

  /** Some continuation takes the moderator off line 105. */
  ghost predicate CanLeaveCall(s: State)
    requires Shape(s)
  {
    exists more :: Run(s, more).Some? && !Run(s, more).value.mod.pc.G6?
  }

  lemma OnlyModMoves(s: State, a: Action)
    requires Shape(s) && s.mod.pc.G6? && Step(s, a).Some?
    ensures Step(s, a).value.mod == s.mod || !Step(s, a).value.mod.pc.G6?
  {
  }

  /** A moderator that has moved has been off the line. */
  lemma {:induction false} MovedIsOff(s: State, more: seq<Action>)
    requires Shape(s) && s.mod.pc.G6? && Run(s, more).Some? && Run(s, more).value.mod != s.mod
    ensures CanLeaveCall(s)
    decreases |more|
  {
    assert more != [];
    var before := more[..|more| - 1];
    var s' := Run(s, before).value;
    if s'.mod == s.mod {
      OnlyModMoves(s', more[|more| - 1]);
      assert !Run(s, more).value.mod.pc.G6?;
    } else {
      MovedIsOff(s, before);
    }
  }

  /** In particular, the moderator comes back from a call in some continuation if and only if
      the state is not stuck there. */
  lemma CallReturnsIffNotStuck(n: nat, q: int, actions: seq<Action>, s: State)
    requires Run(Init(n, q), actions) == Some(s) && s.mod.pc.G6?
    ensures CanLeaveCall(s) <==> !StuckAtCall(s)
  {
    MovesIffNotStuck(n, q, actions, s);
    if CanMove(s) {
      var more :| Run(s, more).Some? && Run(s, more).value.mod != s.mod;
      MovedIsOff(s, more);
    }
    if CanLeaveCall(s) {
      var more :| Run(s, more).Some? && !Run(s, more).value.mod.pc.G6?;
      assert Run(s, more).value.mod != s.mod;
    }
  }

  // ---- When the debate can hang at all ---------------------------------------------------------------------

  predicate NothingAsked(s: State) {
    s.q <= 0 ==> s.mod.pc.M0? || s.mod.pc.M1? || (s.mod.pc.MLoop? && s.mod.asked == 0) || s.mod.pc.MEnd? || s.mod.pc.MDone?
  }

  lemma {:induction false} RunAsksNothing(n: nat, q: int, actions: seq<Action>)
    requires Run(Init(n, q), actions).Some?
    ensures var s := Run(Init(n, q), actions).value; NothingAsked(s) && s.mod.asked >= 0 && (s.mod.pc.M0? || s.mod.pc.M1? ==> s.mod.asked == 0)
    decreases |actions|
  {
    if actions != [] {
      var before := actions[..|actions| - 1];
      RunAsksNothing(n, q, before);
      var s, a := Run(Init(n, q), before).value, actions[|actions| - 1];
      StepAsksNothing(s, a);
    }
  }

  lemma StepAsksNothing(s: State, a: Action)
    requires Shape(s) && NothingAsked(s) && s.mod.asked >= 0 && (s.mod.pc.M0? || s.mod.pc.M1? ==> s.mod.asked == 0)
    requires Step(s, a).Some?
    ensures var s' := Step(s, a).value;
      NothingAsked(s') && s'.mod.asked >= 0 && (s'.mod.pc.M0? || s'.mod.pc.M1? ==> s'.mod.asked == 0)
  {
  }

  /** After the run the moderator has not returned and never will. */
  ghost predicate Hangs(n: nat, q: int, actions: seq<Action>) {
    Run(Init(n, q), actions).Some? &&
    var s := Run(Init(n, q), actions).value;
    !s.mod.pc.MDone? && !CanMove(s)
  }

  /** The debate can hang if and only if a question is to be asked, however many take part. */
  lemma HangsIffAsked(n: nat, q: int)
    ensures (exists actions :: Hangs(n, q, actions)) <==> q >= 1
  {
    if q >= 1 {
      DebateCanHang(n, q);
      RunKeepsAll(n, q, Moderators(9));
      StuckNeverMoves(Run(Init(n, q), Moderators(9)).value);
      assert Hangs(n, q, Moderators(9));
    } else {
      forall actions
        ensures !Hangs(n, q, actions)
      {
        NeverAskedNeverHangs(n, q, actions);
      }
    }
  }

  lemma NeverAskedNeverHangs(n: nat, q: int, actions: seq<Action>)
    requires q <= 0
    ensures !Hangs(n, q, actions)
  {
    if Run(Init(n, q), actions).Some? {
      var s := Run(Init(n, q), actions).value;
      RunAsksNothing(n, q, actions);
      if !s.mod.pc.MDone? {
        MovesIffNotStuck(n, q, actions, s);
      }
    }
  }
}
