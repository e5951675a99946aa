/** Runs that show what the debate can do: how it hangs with an answer counted, how it hangs at
    a call, and how one question is answered twice. */
module DebateWitnesses {
  import opened Sequences
  import opened RingQueue
  import opened Debate
  import opened DebateHang
  import opened DebateProgress
  import opened DebateAnswers
  import opened DebateRuns

  lemma InitLocks(n: nat, q: int)
    requires n >= 2
    ensures var taken := Init(n, q).taken;
      && Question !in taken && Mutex1 !in taken && Mutex2 !in taken && Mutex3 !in taken && BreakingNews !in taken
      && Gate(0) in taken && Gate(1) in taken && Done(0) in taken && Done(1) in taken
    ensures var i := Init(n, q);
      |i.com| == i.n == n && i.q == q && i.com[0] == i.com[1] == Com(CLoop, 0, 0) && i.queue == Create(n) && i.currentSize == 0 && i.curr == -1
  {
  }

  /** The first two commentators, moved on one after the other. */
  lemma TwoMove(com: seq<Com>, a: Com, b: Com, a': Com, b': Com)
    requires |com| >= 2
    ensures com[0 := a][1 := b][0 := a'] == com[0 := a'][1 := b] && com[0 := a][1 := b][1 := b'] == com[0 := a][1 := b']
    ensures com[0 := a][1 := b][0] == a && com[0 := a][1 := b][1] == b
  {
  }

  lemma OnlyAnswer(n: nat)
    requires n > 0
    ensures var r := Push(Create(n), 1);
      r.size == 1 && Pop(r).1 == 1 && Pop(r).0.size == 0 && Consistent(Pop(r).0) && |Pop(r).0.list| == n
  {
    var r := Push(Create(n), 1);
    PushAppends(Create(n), 1);
    PopRemovesHead(r);
    hide *;
    assert Contents(r) == [1] && Contents(r)[0] == Pop(r).1;
  }

  /** That answer taken out, and the next put in. */
  lemma OtherAnswer(n: nat)
    requires n > 0
    ensures var r := Push(Pop(Push(Create(n), 1)).0, 2);
      Consistent(r) && r.size == 1 && Contents(r) == [2] && Pop(r).1 == 2
  {
    OnlyAnswer(n);
    var empty := Pop(Push(Create(n), 1)).0;
    PushAppends(empty, 2);
    assert Contents(empty) == [];
    PopRemovesHead(Push(empty, 2));
    hide *;
    assert Contents(Push(empty, 2))[0] == 2;
  }

  // ---- The records ---------------------------------------------------------------------------------

  function OneAnswer(): Answers {
    [] + [(0, 1)]
  }

  /** The second commentator answers the first question too, or the second question. */
  function ThenOther(asked: int): Answers {
    OneAnswer() + [(1, asked)]
  }

  function ThenAgain(): Answers {
    ThenOther(1) + [(0, 1)]
  }

  lemma Records(asked: int)
    ensures OneAnswer() == [] + [(0, 1)] && ThenOther(asked) == OneAnswer() + [(1, asked)]
    ensures ThenAgain() == ThenOther(1) + [(0, 1)]
  {
  }

  // ---- An answer counted, and a question never passed ---------------------------------------------

  /** Two commentators hear the first question. */
  lemma BothHear(n: nat, q: int) returns (s: State)
    requires n >= 2 && q >= 1
    ensures Shape(s) && Reached(s, [])
    ensures var i := Init(n, q);
      s == i.(mod := Mod(A5, 1, 0), com := i.com[0 := Com(P, 1, 0)][1 := Com(P, 1, 0)],
              taken := i.taken + {Mutex1, Mutex2, Mutex3, BreakingNews})
  {
    hide *;
    InitLocks(n, q);
    var taken := Init(n, q).taken;
    s := Begins(n, q);
    s := Asks(s, []);
    s := Hears(s, [], 0);
    s := Hears(s, [], 1);
    assert s.taken == taken + {Mutex1, Mutex2, Mutex3, BreakingNews};
  }

  /** One answers it and wakes the moderator; the other takes its time. */
  lemma FirstAnswer(n: nat, q: int) returns (s: State)
    requires n >= 2 && q >= 1
    ensures Shape(s) && Reached(s, OneAnswer())
    ensures var i := Init(n, q);
      s == i.(mod := Mod(A7, 1, 0), com := i.com[0 := Com(L1, 1, 0)][1 := Com(P, 1, 0)], currentSize := 1,
              queue := Push(i.queue, 1), taken := i.taken + {Question, Mutex2, BreakingNews})
  {
    hide *;
    InitLocks(n, q);
    OnlyAnswer(n);
    var taken, log := Init(n, q).taken, OneAnswer();
    Records(1);
    TwoMove(Init(n, q).com, Com(P, 1, 0), Com(P, 1, 0), Com(F1, 1, 0), Com(P, 1, 0));
    TwoMove(Init(n, q).com, Com(F1, 1, 0), Com(P, 1, 0), Com(U2, 1, 0), Com(P, 1, 0));
    TwoMove(Init(n, q).com, Com(U2, 1, 0), Com(P, 1, 0), Com(L1, 1, 0), Com(P, 1, 0));
    s := BothHear(n, q);
    s := Replies(s, [], 0);
    s := Counts(s, log);
    s := Wakes(s, log, 0);
    s := Retakes(s, log, 0);
    assert s.taken == taken + {Question, Mutex2, BreakingNews};
  }

  /** It speaks, and the moderator goes on to the second question. */
  lemma FirstRound(n: nat, q: int) returns (s: State)
    requires n >= 2 && q >= 2
    ensures Shape(s) && Reached(s, OneAnswer()) && s.queue == Pop(Push(Create(n), 1)).0
    ensures var i := Init(n, q);
      s == i.(mod := Mod(A1, 2, 1), com := i.com[0 := Com(CLoop, 1, 0)][1 := Com(P, 1, 0)], currentSize := 1,
              queue := s.queue, taken := i.taken + {Question})
  {
    hide *;
    var taken, log := Init(n, q).taken, OneAnswer();
    InitLocks(n, q);
    OnlyAnswer(n);
    TwoMove(Init(n, q).com, Com(L1, 1, 0), Com(P, 1, 0), Com(S1, 1, 0), Com(P, 1, 0));
    TwoMove(Init(n, q).com, Com(S1, 1, 0), Com(P, 1, 0), Com(CLoop, 1, 0), Com(P, 1, 0));
    s := FirstAnswer(n, q);
    s := Passes(s, log);
    s := Calls(s, log);
    s := Enters(s, log, 0);
    s := Speaks(s, log, 0);
    s := Returns(s, log);
    assert s.taken == taken + {Question};
  }

  /** The other one then answers, compares with the size left from the first round, and wakes
      the moderator before it has asked again. */
  lemma LateAnswer(n: nat, q: int) returns (s: State)
    requires n >= 2 && q >= 2
    ensures Shape(s) && Reached(s, ThenOther(2)) && s.n == n && s.q == q && s.mod.pc.A7?
    ensures s.com == Init(n, q).com[0 := Com(CLoop, 1, 0)][1 := Com(L1, 1, 0)] && s.currentSize == s.queue.size == 1
    ensures Mutex1 in s.taken && Consistent(s.queue) && Contents(s.queue) == [2]
  {
    hide *;
    var one, log := OneAnswer(), ThenOther(2);
    Records(2);
    InitLocks(n, q);
    OnlyAnswer(n);
    OtherAnswer(n);
    s := FirstRound(n, q);
    s := Replies(s, one, 1);
    s := Wakes(s, log, 1);
    s := Asks(s, log);
    s := Retakes(s, log, 1);
    s := Counts(s, log);
  }

  /** So the second question is never passed, though an answer to it was counted. */
  lemma AnsweredHangs(n: nat, q: int) returns (s: State)
    requires n >= 2 && q >= 2
    ensures s.n == n && s.q == q && Reachable(s) && Known(s) && s.currentSize == 1 && Contents(s.queue) == [2]
    ensures Stuck(s) && !CanPass(s)
  {
    s := LateAnswer(n, q);
    ReachedIsReachable(s, ThenOther(2));
    assert Stuck(s);
    StuckNeverPasses(s);
  }

  // ---- A call never answered ---------------------------------------------------------------------------

  lemma FirstCall(n: nat, q: int) returns (s: State)
    requires n >= 2 && q >= 1
    ensures Shape(s) && Reached(s, OneAnswer())
    ensures var i := Init(n, q);
      s == i.(mod := Mod(G6, 1, 1), com := i.com[0 := Com(L1, 1, 0)][1 := Com(P, 1, 0)], currentSize := 1,
              queue := Pop(Push(i.queue, 1)).0, taken := i.taken + {Question} - {Gate(0)})
  {
    hide *;
    InitLocks(n, q);
    OnlyAnswer(n);
    var taken, log := Init(n, q).taken, OneAnswer();
    s := FirstAnswer(n, q);
    s := Passes(s, log);
    s := Calls(s, log);
    assert s.taken == taken + {Question} - {Gate(0)};
  }

  /** While the first one is called, the other answers, compares with the size of the round and
      thinks that it has to wake the moderator. */
  lemma LateWake(n: nat, q: int) returns (s: State)
    requires n >= 2 && q >= 1
    ensures Shape(s) && Reached(s, ThenOther(1))
    ensures var i := Init(n, q);
      s == i.(mod := Mod(G6, 1, 1), com := i.com[0 := Com(L1, 1, 0)][1 := Com(U2, 1, 0)], currentSize := 1,
              queue := Push(Pop(Push(i.queue, 1)).0, 2), taken := i.taken + {Question} - {Gate(0)})
  {
    hide *;
    InitLocks(n, q);
    OnlyAnswer(n);
    var taken, one, log := Init(n, q).taken, OneAnswer(), ThenOther(1);
    Records(1);
    TwoMove(Init(n, q).com, Com(L1, 1, 0), Com(P, 1, 0), Com(L1, 1, 0), Com(F1, 1, 0));
    TwoMove(Init(n, q).com, Com(L1, 1, 0), Com(F1, 1, 0), Com(L1, 1, 0), Com(U2, 1, 0));
    s := FirstCall(n, q);
    s := Replies(s, one, 1);
    s := Wakes(s, log, 1);
    assert s.taken == taken + {Question} - {Gate(0)};
  }

  /** The first one, which holds `question_mutex`, speaks; the other is called, and cannot come
      to its gate before that lock is free. */
  lemma SecondCall(n: nat, q: int) returns (s: State)
    requires n >= 2 && q >= 1
    ensures Shape(s) && Reached(s, ThenOther(1)) && s.n == n && s.q == q && s.mod == Mod(G6, 1, 2)
    ensures s.com == Init(n, q).com[0 := Com(CLoop, 1, 0)][1 := Com(U2, 1, 0)]
    ensures Question in s.taken && Done(1) in s.taken
  {
    hide *;
    var taken, log := Init(n, q).taken, ThenOther(1);
    InitLocks(n, q);
    OnlyAnswer(n);
    OtherAnswer(n);
    s := LateWake(n, q);
    s := Enters(s, log, 0);
    s := Speaks(s, log, 0);
    s := Resumes(s, log);
    s := Calls(s, log);
  }

  /** The moderator waits at line 105 for ever, and is not stuck at line 94. */
  lemma CallHangs(n: nat, q: int) returns (s: State)
    requires n >= 2 && q >= 1
    ensures s.n == n && s.q == q && Reachable(s) && All(s) && s.mod == Mod(G6, 1, 2)
    ensures StuckAtCall(s) && !Stuck(s) && !CanMove(s)
  {
    s := SecondCall(n, q);
    ReachedIsReachable(s, ThenOther(1));
    hide All;
    StuckNeverMoves(s);
  }

  // ---- One question, two answers of one commentator ------------------------------------------

  function TwoAnswers(n: nat): Ring
    requires n >= 2
  {
    Push(Push(Create(n), 1), 2)
  }

  lemma FirstOfTwo(n: nat)
    requires n >= 2
    ensures var r := TwoAnswers(n);
      && r == Push(Push(Create(n), 1), 2) && Push(Create(n), 1).size == 1 && r.size == 2 && Pop(r).1 == 1
      && Consistent(Pop(r).0) && Pop(r).0.size == 1 && |Pop(r).0.list| == n
  {
    var r := TwoAnswers(n);
    PushAppends(Create(n), 1);
    PushAppends(Push(Create(n), 1), 2);
    PopRemovesHead(r);
    assert Contents(r) == [1, 2];
    assert Contents(r)[0] == 1 && Contents(r)[1..] == [2];
  }

  lemma BothQueue(n: nat, q: int) returns (s: State)
    requires n >= 2 && q >= 1
    ensures Shape(s) && Reached(s, ThenOther(1))
    ensures var i := Init(n, q);
      s == i.(mod := Mod(A5, 1, 0), com := i.com[0 := Com(F1, 1, 0)][1 := Com(F1, 1, 1)], queue := TwoAnswers(n),
              taken := i.taken + {Mutex1, Mutex2, Mutex3, BreakingNews})
  {
    hide *;
    InitLocks(n, q);
    FirstOfTwo(n);
    TwoMove(Init(n, q).com, Com(P, 1, 0), Com(P, 1, 0), Com(F1, 1, 0), Com(P, 1, 0));
    TwoMove(Init(n, q).com, Com(F1, 1, 0), Com(P, 1, 0), Com(F1, 1, 0), Com(F1, 1, 1));
    var queue, one := TwoAnswers(n), OneAnswer();
    Records(1);
    s := BothHear(n, q);
    s := Replies(s, [], 0);
    s := Replies(s, one, 1);
    assert s.queue == queue;
  }

  /** Two commentators answer.  The second, in waking the moderator, has unlocked `mutex1` and
      not yet taken `question_mutex`. */
  lemma BothAnswer(n: nat, q: int) returns (s: State)
    requires n >= 2 && q >= 1
    ensures Shape(s) && Reached(s, ThenOther(1))
    ensures var i := Init(n, q);
      s == i.(mod := Mod(A7, 1, 0), com := i.com[0 := Com(L1, 1, 0)][1 := Com(U2, 1, 1)], currentSize := 2,
              queue := TwoAnswers(n), taken := i.taken + {Mutex2, BreakingNews})
  {
    hide *;
    InitLocks(n, q);
    FirstOfTwo(n);
    var taken, log := Init(n, q).taken, ThenOther(1);
    s := BothQueue(n, q);
    s := Counts(s, log);
    s := Compares(s, log, 0);
    s := Wakes(s, log, 1);
    assert s.taken == taken + {Mutex2, BreakingNews};
  }

  /** The first of them takes its turn. */
  lemma FirstTurn(n: nat, q: int) returns (s: State)
    requires n >= 2 && q >= 1
    ensures Shape(s) && Reached(s, ThenOther(1)) && s.n == n && s.q == q && s.mod == Mod(G6, 1, 1)
    ensures |s.com| == n && s.com[0] == Com(CLoop, 1, 0) && s.queue == Pop(TwoAnswers(n)).0 && Question !in s.taken
  {
    hide *;
    InitLocks(n, q);
    FirstOfTwo(n);
    var log := ThenOther(1);
    s := BothAnswer(n, q);
    s := Passes(s, log);
    s := Calls(s, log);
    s := Enters(s, log, 0);
    s := Speaks(s, log, 0);
  }

  lemma ThirdAnswer(n: nat)
    requires n >= 2
    ensures var r := Push(Pop(TwoAnswers(n)).0, 1); Consistent(r) && Contents(r) == [2, 1]
  {
    var r := TwoAnswers(n);
    PushAppends(Create(n), 1);
    PushAppends(Push(Create(n), 1), 2);
    PopRemovesHead(r);
    assert Contents(r) == [1, 2] && Contents(r)[1..] == [2];
    PushAppends(Pop(r).0, 1);
  }

  lemma AllIsKnown(s: State)
    requires All(s)
    ensures Known(s)
  {
  }

  /** It then hears the same question again and answers it again, while only one question was
      asked: the moderator has called it for that question, and has it in the queue once more. */
  lemma AnswersTwice(n: nat, q: int) returns (s: State)
    requires n >= 2 && q >= 2
    ensures s.n == n && s.q == q && Reached(s, ThenAgain()) && Known(s)
    ensures s.mod == Mod(G6, 1, 1) && s.com[0].round == 2 && Contents(s.queue) == [2, 1]
  {
    hide *;
    FirstOfTwo(n);
    ThirdAnswer(n);
    var log := ThenOther(1);
    Records(1);
    s := FirstTurn(n, q);
    s := Hears(s, log, 0);
    s := Replies(s, log, 0);
    ReachedIsReachable(s, ThenAgain());
    AllIsKnown(s);
  }

  lemma AnswersRepeat(n: nat, q: int) returns (actions: seq<Action>)
    requires n >= 2 && q >= 2
    ensures Run(Init(n, q), actions).Some? && !Distinct(AnswersOf(Init(n, q), actions))
  {
    var s := AnswersTwice(n, q);
    actions :| LeadsTo(s, ThenAgain(), actions);
    var log := AnswersOf(Init(n, q), actions);
    assert log[0] == log[2];
  }

  /** Some run has a commentator answer one question twice. */
  ghost predicate CanRepeat(n: nat, q: int) {
    exists actions :: Run(Init(n, q), actions).Some? && !Distinct(AnswersOf(Init(n, q), actions))
  }

  /** Rounds are separate, in that no commentator answers a question twice, if and only if there
      is at most one commentator or at most one question. */
  lemma RoundsAreSeparateIff(n: nat, q: int)
    ensures !CanRepeat(n, q) <==> n <= 1 || q <= 1
  {
    if n <= 1 || q <= 1 {
      forall actions | Run(Init(n, q), actions).Some?
        ensures Distinct(AnswersOf(Init(n, q), actions))
      {
        AnswersAreDistinct(n, q, actions);
      }
    } else {
      var actions := AnswersRepeat(n, q);
    }
  }
}
