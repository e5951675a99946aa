/** When the debate can go on past prj2/main.c:94, where the moderator waits for an answer,
    and when it hangs there for good. */
module DebateHang {
  import opened Wrappers
  import opened RingQueue
  import opened Debate
  import opened DebateInvariant

  /** At or before the comparison of line 161, and about to take the branch there. */
  predicate WillWake(s: State, c: int)
    requires Shape(s) && 0 <= c < s.n
  {
    (s.com[c].pc.F1? || s.com[c].pc.F2? || s.com[c].pc.D?) && s.com[c].pos == s.currentSize - 1
  }

  /** About to unlock `mutex1`. */
  predicate WillFree(pc: ComPc) {
    pc.U1? || pc.L2? || pc.N2?
  }

  /** The moderator waits at line 94, and nobody has a way to release `mutex1`. */
  predicate Stuck(s: State) {
    && Shape(s) && s.mod.pc.A7? && Mutex1 in s.taken
    && forall c :: 0 <= c < s.n ==> !WillFree(s.com[c].pc) && !WillWake(s, c)
  }

  /** Some continuation of the run takes the moderator past line 94. */
  ghost predicate CanPass(s: State)
    requires Shape(s)
  {
    exists more :: Run(s, more).Some? && !Run(s, more).value.mod.pc.A7?
  }

  // ---- Two more invariants ------------------------------------------------------------------

  /** From `getSize` until line 94 the queue is no shorter than `currentSize`. */
  predicate SizeOk(s: State) {
    s.mod.pc.A6? || s.mod.pc.A7? ==> s.currentSize <= s.queue.size
  }

  predicate AtF2(s: State, c: int)
    requires Shape(s)
  {
    0 <= c < s.n && s.com[c].pc.F2?
  }

  /** A taken `mutex3` has a holder. */
  ghost predicate Mutex3Held(s: State)
    requires Shape(s)
  {
    Mutex3 in s.taken ==> HoldsMutex3(s.mod.pc) || exists c :: AtF2(s, c)
  }

  lemma StepKeepsSize(s: State, a: Action)
    requires Shape(s) && SizeOk(s) && Step(s, a).Some?
    ensures SizeOk(Step(s, a).value)
  {
  }

  lemma ModKeepsHolder(s: State)
    requires Shape(s) && Mutex3Held(s) && ModStep(s).Some?
    ensures Shape(ModStep(s).value) && Mutex3Held(ModStep(s).value)
  {
    ModKeepsShape(s);
    var s' := ModStep(s).value;
    if c :| AtF2(s, c) {
      assert AtF2(s', c);
    }
  }

  lemma ComKeepsHolder(s: State, c: nat, choice: bool)
    requires Shape(s) && Mutex3Held(s) && c < s.n && ComStep(s, c, choice).Some?
    ensures Shape(ComStep(s, c, choice).value) && Mutex3Held(ComStep(s, c, choice).value)
  {
    ComKeepsShape(s, c, choice);
    var s' := ComStep(s, c, choice).value;
    if s.com[c].pc.F1? {
      assert AtF2(s', c);
    } else if d :| AtF2(s, d) && d != c {
      assert AtF2(s', d);
    }
  }

  lemma StepKeepsHolder(s: State, a: Action)
    requires Shape(s) && Mutex3Held(s) && Step(s, a).Some?
    ensures Shape(Step(s, a).value) && Mutex3Held(Step(s, a).value)
  {
    match a
    case Moderator => ModKeepsHolder(s);
    case Commentator(c, choice) => ComKeepsHolder(s, c, choice);
    case News(choice) =>
      if c :| AtF2(s, c) {
        assert AtF2(NewsStep(s, choice).value, c);
      }
  }

  ghost predicate Known(s: State) {
    Inv(s) && SizeOk(s) && Mutex3Held(s)
  }

  lemma StepKeepsKnown(s: State, a: Action)
    requires Known(s) && Step(s, a).Some?
    ensures Known(Step(s, a).value)
  {
    StepKeepsInv(s, a);
    StepKeepsSize(s, a);
    StepKeepsHolder(s, a);
  }

  lemma {:induction false} RunKeepsKnown(n: nat, q: int, actions: seq<Action>)
    requires Run(Init(n, q), actions).Some?
    ensures Known(Run(Init(n, q), actions).value)
    decreases |actions|
  {
    if actions == [] {
      InitInv(n, q);
    } else {
      var before := actions[..|actions| - 1];
      RunKeepsKnown(n, q, before);
      StepKeepsKnown(Run(Init(n, q), before).value, actions[|actions| - 1]);
    }
  }

  // ---- Stuck is for ever ----------------------------------------------------------------------

  lemma ComKeepsStuck(s: State, c: nat, choice: bool)
    requires Stuck(s) && SizeOk(s) && Consistent(s.queue) && c < s.n && ComStep(s, c, choice).Some?
    requires s.com[c].pc.E1? ==> s.queue.size < s.n
    ensures Stuck(ComStep(s, c, choice).value)
  {
    ComKeepsShape(s, c, choice);
    var s' := ComStep(s, c, choice).value;
    assert s'.mod == s.mod && s'.currentSize == s.currentSize;
    assert !WillFree(s.com[c].pc) && !WillWake(s, c);
    assert Mutex1 in s'.taken && !WillFree(s'.com[c].pc) && !WillWake(s', c);
    forall d | 0 <= d < s.n && d != c
      ensures !WillFree(s'.com[d].pc) && !WillWake(s', d)
    {
      assert s'.com[d] == s.com[d] && !WillFree(s.com[d].pc) && !WillWake(s, d);
    }
  }

  lemma StepKeepsStuck(s: State, a: Action)
    requires Known(s) && Stuck(s) && Step(s, a).Some?
    ensures Stuck(Step(s, a).value) && Step(s, a).value.mod == s.mod
  {
    StepKeepsShape(s, a);
    match a
    case Moderator =>
    case News(choice) =>
      var s' := NewsStep(s, choice).value;
      assert s'.com == s.com && s'.n == s.n && s'.currentSize == s.currentSize;
      assert forall c :: 0 <= c < s.n ==> (WillWake(s', c) <==> WillWake(s, c));
    case Commentator(c, choice) =>
      if s.com[c].pc.E1? {
        TokenOf(s, c);
        RoomFor(s, c);
      }
      ComKeepsStuck(s, c, choice);
  }

  /** Once stuck, always stuck: no continuation of the run lets the moderator go on. */
  lemma {:induction false} StuckIsForever(s: State, more: seq<Action>)
    requires Known(s) && Stuck(s) && Run(s, more).Some?
    ensures Known(Run(s, more).value) && Stuck(Run(s, more).value) && Run(s, more).value.mod == s.mod
    decreases |more|
  {
    if more != [] {
      var before := more[..|more| - 1];
      StuckIsForever(s, before);
      var s' := Run(s, before).value;
      StepKeepsKnown(s', more[|more| - 1]);
      StepKeepsStuck(s', more[|more| - 1]);
    }
  }

  // ---- Otherwise there is a way on --------------------------------------------------------------

  /** A run that begins with `a`. */
  lemma {:induction false} RunPrepend(s: State, a: Action, more: seq<Action>)
    requires Shape(s) && Step(s, a).Some?
    ensures Shape(Step(s, a).value) && Run(s, [a] + more) == Run(Step(s, a).value, more)
    decreases |more|
  {
    StepKeepsShape(s, a);
    var all := [a] + more;
    if more == [] {
      assert all[..|all| - 1] == [] && all[|all| - 1] == a;
      assert Run(s, []) == Some(s);
    } else {
      assert all[..|all| - 1] == [a] + more[..|more| - 1];
      RunPrepend(s, a, more[..|more| - 1]);
    }
  }

  lemma PassAfter(s: State, a: Action)
    requires Shape(s) && Step(s, a).Some? && Shape(Step(s, a).value) && CanPass(Step(s, a).value)
    ensures CanPass(s)
  {
    var s' := Step(s, a).value;
    var more :| Run(s', more).Some? && !Run(s', more).value.mod.pc.A7?;
    RunPrepend(s, a, more);
    assert Run(s, [a] + more).Some?;
  }

  lemma PassWhenFree(s: State)
    requires Shape(s) && s.mod.pc.A7? && Mutex1 !in s.taken
    ensures CanPass(s)
  {
    ModKeepsShape(s);
    var s' := ModStep(s).value;
    assert Run(s', []) == Some(s') && s'.mod.pc.A8?;
    PassAfter(s, Moderator);
  }

  /** Someone about to unlock `mutex1`. */
  lemma PassWhenFreed(s: State, c: nat)
    requires Shape(s) && s.mod.pc.A7? && c < s.n && WillFree(s.com[c].pc)
    ensures CanPass(s)
  {
    ComKeepsShape(s, c, true);
    PassWhenFree(ComStep(s, c, true).value);
    PassAfter(s, Commentator(c, true));
  }

  lemma PassWhenDecided(s: State, c: nat)
    requires Shape(s) && s.mod.pc.A7? && c < s.n && s.com[c].pc.D? && WillWake(s, c)
    ensures CanPass(s)
  {
    ComKeepsShape(s, c, true);
    PassWhenFreed(ComStep(s, c, true).value, c);
    PassAfter(s, Commentator(c, true));
  }

  lemma PassWhenReleasing(s: State, c: nat)
    requires Shape(s) && s.mod.pc.A7? && c < s.n && s.com[c].pc.F2? && WillWake(s, c)
    ensures CanPass(s)
  {
    ComKeepsShape(s, c, true);
    PassWhenDecided(ComStep(s, c, true).value, c);
    PassAfter(s, Commentator(c, true));
  }

  lemma PassWhenWaiting(s: State, c: nat)
    requires Shape(s) && s.mod.pc.A7? && c < s.n && s.com[c].pc.F1? && WillWake(s, c) && Mutex3 !in s.taken
    ensures CanPass(s)
  {
    ComKeepsShape(s, c, true);
    PassWhenReleasing(ComStep(s, c, true).value, c);
    PassAfter(s, Commentator(c, true));
  }

  /** Someone whose comparison will come out equal, whoever holds `mutex3` now. */
  lemma PassWhenWoken(s: State, c: nat)
    requires Known(s) && s.mod.pc.A7? && c < s.n && WillWake(s, c)
    ensures CanPass(s)
  {
    if s.com[c].pc.D? {
      PassWhenDecided(s, c);
    } else if s.com[c].pc.F2? {
      PassWhenReleasing(s, c);
    } else if Mutex3 !in s.taken {
      PassWhenWaiting(s, c);
    } else {
      var d :| AtF2(s, d);
      ComKeepsShape(s, d, true);
      PassWhenWaiting(ComStep(s, d, true).value, c);
      PassAfter(s, Commentator(d, true));
    }
  }

  lemma StuckNeverPasses(s: State)
    requires Known(s) && Stuck(s)
    ensures !CanPass(s)
  {
    forall more | Run(s, more).Some?
      ensures Run(s, more).value.mod.pc.A7?
    {
      StuckIsForever(s, more);
    }
  }

  lemma OthersPass(s: State)
    requires Known(s) && s.mod.pc.A7? && !Stuck(s)
    ensures CanPass(s)
  {
    if Mutex1 !in s.taken {
      PassWhenFree(s);
    } else {
      var c :| 0 <= c < s.n && (WillFree(s.com[c].pc) || WillWake(s, c));
      if WillFree(s.com[c].pc) {
        PassWhenFreed(s, c);
      } else {
        PassWhenWoken(s, c);
      }
    }
  }

  /** The exact condition: in every reachable state with the moderator at line 94, some
      continuation takes it past that line if and only if the state is not stuck. */
  lemma PassIffNotStuck(n: nat, q: int, actions: seq<Action>, s: State)
    requires Run(Init(n, q), actions) == Some(s) && s.mod.pc.A7?
    ensures CanPass(s) <==> !Stuck(s)
  {
    RunKeepsKnown(n, q, actions);
    if Stuck(s) {
      StuckNeverPasses(s);
    } else {
      OthersPass(s);
    }
  }

  // ---- Runs that hang ---------------------------------------------------------------------------

  /** The run with `more` actions added. */
  lemma {:induction false} RunAppend(s: State, actions: seq<Action>, more: seq<Action>)
    requires Shape(s) && Run(s, actions).Some?
    ensures Run(s, actions + more) == Run(Run(s, actions).value, more)
    decreases |more|
  {
    hide Step;
    if more == [] {
      assert actions + more == actions;
    } else {
      var all, k := actions + more, |more| - 1;
      assert all[..|all| - 1] == actions + more[..k];
      RunAppend(s, actions, more[..k]);
    }
  }

  function Moderators(k: nat): seq<Action> {
    seq(k, _ => Moderator)
  }

  /** The moderator's first nine lines and the tenth. */
  function Line(k: nat): ModPc
    requires k <= 9
  {
    [M0, M1, MLoop, A1, A2, A3, A4, A5, A6, A7][k]
  }

  /** After `k` steps of the moderator alone. */
  predicate Alone(s: State, k: nat)
    requires k <= 9
  {
    && Shape(s) && s.q >= 1 && s.mod.pc == Line(k) && (k <= 2 ==> s.mod.asked == 0)
    && s.queue.size == 0 && s.currentSize == 0
    && (forall c :: 0 <= c < s.n ==> s.com[c].pc.CLoop?)
    && (Question in s.taken <==> 1 <= k <= 6)
    && (Mutex2 in s.taken <==> 2 <= k)
    && (Mutex1 in s.taken <==> 4 <= k)
    && (BreakingNews in s.taken <==> 5 <= k)
    && (Mutex3 in s.taken <==> 6 <= k <= 8)
  }

  lemma AloneStep(s: State, k: nat)
    requires k < 9 && Alone(s, k)
    ensures ModStep(s).Some? && Alone(ModStep(s).value, k + 1)
  {
    if ModStep(s).Some? {
      ModKeepsShape(s);
      assert ModStep(s).value.com == s.com;
    }
  }

  lemma AloneInit(n: nat, q: int)
    requires q >= 1
    ensures Alone(Init(n, q), 0)
  {
  }

  lemma {:induction false} AloneRun(n: nat, q: int, k: nat)
    requires q >= 1 && k <= 9
    ensures Run(Init(n, q), Moderators(k)).Some? && Alone(Run(Init(n, q), Moderators(k)).value, k)
  {
    if k == 0 {
      AloneInit(n, q);
    } else {
      AloneRun(n, q, k - 1);
      assert Moderators(k)[..k - 1] == Moderators(k - 1);
      AloneStep(Run(Init(n, q), Moderators(k - 1)).value, k - 1);
    }
  }

  /** A question that nobody answers, for every number of commentators and questions: nine
      steps of the moderator alone can be taken, and after them the debate is stuck. */
  lemma DebateCanHang(n: nat, q: int)
    requires q >= 1
    ensures Run(Init(n, q), Moderators(9)).Some?
    ensures var s := Run(Init(n, q), Moderators(9)).value; Stuck(s) && !CanPass(s)
  {
    AloneRun(n, q, 9);
    RunKeepsKnown(n, q, Moderators(9));
    StuckNeverPasses(Run(Init(n, q), Moderators(9)).value);
  }
}
