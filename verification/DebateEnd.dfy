/** A whole debate that comes to its end, and when there is none. */
module DebateEnd {
  import opened RingQueue
  import opened Debate
  import opened DebateAnswers
  import opened DebateRuns

  predicate AllDone(s: State)
    requires Shape(s)
  {
    forall c :: 0 <= c < s.n ==> s.com[c].pc.CDone?
  }

  /** Every thread has returned. */
  predicate Over(s: State)
    requires Shape(s)
  {
    s.mod.pc.MDone? && s.news.BDone? && AllDone(s)
  }

  lemma NewsGoes(s: State, log: Answers) returns (s': State)
    requires Shape(s) && Reached(s, log) && NewsStep(s, false).Some?
    ensures s' == NewsStep(s, false).value && Shape(s') && Reached(s', log)
  {
    hide Reached;
    s' := Go(s, log, News(false));
  }

  // ---- Commentators that have nothing to say -----------------------------------------------------

  /** Lines 156, 172 and 173. */
  lemma Declines(s: State, log: Answers, c: nat) returns (s': State)
    requires Shape(s) && Reached(s, log) && c < s.n && s.com[c].pc.P? && Mutex1 !in s.taken
    ensures Shape(s') && Reached(s', log)
    ensures s' == s.(com := s.com[c := s.com[c].(pc := CLoop)])
  {
    hide Reached;
    s' := GoOn(s, log, c, false);
    s' := GoOn(s', log, c, false);
    s' := GoOn(s', log, c, false);
    assert s'.taken == s.taken;
  }

  /** It hears nothing but the question of the moment, as often as it likes. */
  lemma {:induction false} Leaves(s: State, log: Answers, c: nat) returns (s': State)
    requires Shape(s) && Reached(s, log) && c < s.n && s.com[c].pc.CLoop?
    requires Question !in s.taken && Mutex1 !in s.taken
    ensures Shape(s') && Reached(s', log) && s'.n == s.n && s'.com[c].pc.CDone?
    ensures s' == s.(com := s.com[c := s'.com[c]])
    decreases if s.com[c].round < s.q then s.q - s.com[c].round else 0
  {
    hide Reached;
    if s.com[c].round < s.q {
      s' := Hears(s, log, c);
      s' := Declines(s', log, c);
      s' := Leaves(s', log, c);
    } else {
      s' := GoOn(s, log, c, true);
    }
  }

  /** All from number `c` on. */
  lemma {:induction false} OthersLeave(s: State, log: Answers, c: nat) returns (s': State)
    requires Shape(s) && Reached(s, log) && c <= s.n && forall d :: c <= d < s.n ==> s.com[d].pc.CLoop?
    requires Question !in s.taken && Mutex1 !in s.taken
    ensures Shape(s') && Reached(s', log) && s' == s.(com := s'.com)
    ensures forall d :: 0 <= d < c ==> s'.com[d] == s.com[d]
    ensures forall d :: c <= d < s.n ==> s'.com[d].pc.CDone?
    decreases s.n - c
  {
    hide Reached;
    s' := s;
    if c < s.n {
      s' := Leaves(s, log, c);
      s' := OthersLeave(s', log, c + 1);
    }
  }

  // ---- A round in which the first commentator answers ------------------------------------------------

  /** The answers of the first `i` rounds. */
  function FirstAnswers(i: nat): (log: Answers)
    ensures |log| == i && forall k :: 0 <= k < i ==> log[k] == (0, k + 1)
  {
    if i == 0 then [] else FirstAnswers(i - 1) + [(0, i)]
  }

  /** Before question `i` is asked. */
  predicate Before(s: State, i: int) {
    && Shape(s) && s.n >= 1 && s.mod.pc.A1? && s.mod.asked == i && s.com[0] == Com(CLoop, i - 1, 0)
    && Consistent(s.queue) && s.queue.size == 0
    && Mutex1 !in s.taken && Mutex3 !in s.taken && BreakingNews !in s.taken
    && Question in s.taken && Gate(0) in s.taken && Done(0) in s.taken
    && s.running && s.news.B1?
  }

  /** The commentators but the first. */
  predicate Others(s: State, pc: ComPc)
    requires Shape(s)
  {
    forall c :: 1 <= c < s.n ==> s.com[c].pc == pc
  }

  lemma OneQueued(r: Ring)
    requires Consistent(r) && r.size == 0 && |r.list| > 0
    ensures var r' := Push(r, 1);
      r'.size == 1 && Pop(r').1 == 1 && Pop(r').0.size == 0 && Consistent(Pop(r').0) && |Pop(r').0.list| == |r.list|
  {
    PushAppends(r, 1);
    assert Contents(r) == [];
    PopRemovesHead(Push(r, 1));
    hide *;
    assert Contents(Push(r, 1))[0] == 1;
  }

  /** Lines 84 to 90 and 122 to 157: the question is asked and answered. */
  lemma IsAnswered(s: State, i: nat) returns (s': State)
    requires 1 <= i <= s.q && Before(s, i) && Reached(s, FirstAnswers(i - 1))
    ensures Shape(s') && Reached(s', FirstAnswers(i))
    ensures s' == s.(mod := s.mod.(pc := A5), com := s.com[0 := Com(F1, i, 0)],
                     queue := Push(s.queue, 1), taken := s.taken + {Mutex1, BreakingNews, Mutex3} - {Question})
  {
    hide Reached, Push, FirstAnswers, Consistent;
    NextAnswer(i);
    var log := FirstAnswers(i - 1);
    s' := Asks(s, log);
    s' := Hears(s', log, 0);
    s' := Replies(s', log, 0);
  }

  /** Lines 92, 93 and 128 to 162: the moderator counts, and is woken. */
  lemma IsWoken(s: State, i: nat) returns (s': State)
    requires 1 <= i <= s.q && Before(s, i) && Reached(s, FirstAnswers(i - 1))
    ensures Shape(s') && Reached(s', FirstAnswers(i))
    ensures s' == s.(mod := s.mod.(pc := A7), com := s.com[0 := Com(U2, i, 0)], currentSize := 1,
                     queue := Push(s.queue, 1), taken := s.taken + {BreakingNews} - {Question})
  {
    OneQueued(s.queue);
    var locks := s.taken;
    assert Mutex1 !in locks && Mutex3 !in locks;
    s' := IsAnswered(s, i);
    hide *;
    s' := Counts(s', FirstAnswers(i));
    s' := Wakes(s', FirstAnswers(i), 0);
    assert s'.taken == locks + {BreakingNews} - {Question};
  }

  lemma NextAnswer(i: nat)
    requires i >= 1
    ensures FirstAnswers(i) == FirstAnswers(i - 1) + [(0, i)]
  {
  }

  /** Lines 163 to 168, and 94 to 104: it is called and takes its turn. */
  lemma TakesTurn(s: State, i: nat) returns (s': State)
    requires Shape(s) && Reached(s, FirstAnswers(i)) && s.n >= 1 && s.mod.pc.A7? && s.com[0] == Com(U2, i, 0)
    requires s.queue.size == 1 && Pop(s.queue).1 == 1 && Mutex1 !in s.taken && Question !in s.taken
    requires Gate(0) in s.taken
    ensures Shape(s') && Reached(s', FirstAnswers(i))
    ensures s' == s.(mod := Mod(G6, s.mod.asked, 1), com := s.com[0 := Com(S1, i, 0)], queue := Pop(s.queue).0,
                     taken := s.taken + {Question} - {Mutex2, BreakingNews})
  {
    hide Reached, Pop, FirstAnswers;
    var log := FirstAnswers(i);
    s' := Retakes(s, log, 0);
    s' := Passes(s', log);
    s' := Calls(s', log);
    s' := Enters(s', log, 0);
    assert s'.taken == s.taken + {Question} - {Mutex2, BreakingNews};
  }

  /** Lines 135 to 141: in the middle of its first slice. */
  lemma BeginsSlice(s: State, log: Answers) returns (s': State)
    requires Shape(s) && Reached(s, log) && s.n >= 1 && s.com[0].pc.S1? && Mutex2 !in s.taken && BreakingNews !in s.taken
    ensures Shape(s') && Reached(s', log)
    ensures s' == s.(com := s.com[0 := s.com[0].(pc := S5)], curr := 1, taken := s.taken + {Mutex2, BreakingNews})
  {
    hide Reached;
    s' := GoOn(s, log, 0, true);
    s' := GoOn(s', log, 0, true);
    s' := GoOn(s', log, 0, true);
    s' := GoOn(s', log, 0, true);
    assert s'.taken == s.taken + {Mutex2, BreakingNews};
  }

  /** Lines 144 to 146. */
  lemma EndsSlices(s: State, log: Answers) returns (s': State)
    requires Shape(s) && Reached(s, log) && s.n >= 1 && s.com[0].pc.S5?
    ensures Shape(s') && Reached(s', log)
    ensures s' == s.(com := s.com[0 := s.com[0].(pc := S7)], curr := -1, taken := s.taken - {BreakingNews})
  {
    hide Reached;
    s' := GoOn(s, log, 0, false);
    s' := GoOn(s', log, 0, false);
    s' := GoOn(s', log, 0, false);
  }

  /** Lines 144 to 170. */
  lemma EndsSpeech(s: State, log: Answers) returns (s': State)
    requires Shape(s) && Reached(s, log) && s.n >= 1 && s.com[0].pc.S5?
    ensures Shape(s') && Reached(s', log)
    ensures s' == s.(com := s.com[0 := s.com[0].(pc := CLoop)], curr := -1,
                     taken := s.taken - {BreakingNews, Mutex2, Done(0)})
  {
    hide Reached;
    s' := EndsSlices(s, log);
    s' := GoOn(s', log, 0, false);
    s' := GoOn(s', log, 0, false);
    assert s'.taken == s.taken - {BreakingNews, Mutex2, Done(0)};
  }

  /** The question is asked and answered; in the first round the others then leave. */
  lemma Answered(s: State, i: nat) returns (s': State)
    requires 1 <= i <= s.q && Before(s, i) && Reached(s, FirstAnswers(i - 1)) && Others(s, if i == 1 then CLoop else CDone)
    ensures Shape(s') && Reached(s', FirstAnswers(i)) && s'.n == s.n && Others(s', CDone) && s'.com[0] == Com(U2, i, 0)
    ensures s' == s.(mod := s.mod.(pc := A7), com := s'.com, currentSize := 1,
                     queue := Push(s.queue, 1), taken := s.taken + {BreakingNews} - {Question})
  {
    hide Reached, Push, FirstAnswers;
    s' := IsWoken(s, i);
    if i == 1 {
      s' := OthersLeave(s', FirstAnswers(i), 1);
    }
  }

  /** Up to the middle of the slice. */
  lemma InSlice(s: State, i: nat) returns (s': State)
    requires 1 <= i <= s.q && Before(s, i) && Reached(s, FirstAnswers(i - 1)) && Others(s, if i == 1 then CLoop else CDone)
    ensures Shape(s') && Reached(s', FirstAnswers(i)) && s'.n == s.n && Others(s', CDone) && s'.com[0] == Com(S5, i, 0)
    ensures s' == s.(mod := Mod(G6, i, 1), com := s'.com, currentSize := 1, curr := 1,
                     queue := Pop(Push(s.queue, 1)).0, taken := s.taken + {Mutex2, BreakingNews})
  {
    OneQueued(s.queue);
    hide Reached, Push, Pop, FirstAnswers;
    s' := Answered(s, i);
    s' := TakesTurn(s', i);
    s' := BeginsSlice(s', FirstAnswers(i));
    assert s'.taken == s.taken + {Mutex2, BreakingNews};
  }

  /** Up to the end of the turn. */
  lemma Round(s: State, i: nat) returns (s': State)
    requires 1 <= i <= s.q && Before(s, i) && Reached(s, FirstAnswers(i - 1)) && Others(s, if i == 1 then CLoop else CDone)
    ensures Shape(s') && Reached(s', FirstAnswers(i)) && s'.n == s.n && Others(s', CDone) && s'.com[0] == Com(CLoop, i, 0)
    ensures s' == s.(mod := Mod(G6, i, 1), com := s'.com, currentSize := 1, curr := -1,
                     queue := Pop(Push(s.queue, 1)).0, taken := s.taken - {Mutex2, Done(0)})
  {
    hide Reached, Push, Pop, FirstAnswers;
    s' := InSlice(s, i);
    s' := EndsSpeech(s', FirstAnswers(i));
    assert s'.taken == s.taken - {Mutex2, Done(0)};
  }

  // ---- All rounds ----------------------------------------------------------------------------------------

  lemma FirstQuestion(n: nat, q: int) returns (s: State)
    requires n >= 1 && q >= 1
    ensures s.n == n && s.q == q && Before(s, 1) && Reached(s, FirstAnswers(0)) && Others(s, CLoop)
  {
    s := Begins(n, q);
  }

  /** In every debate with a commentator and a question there is a moment at which the first
      commentator is inside a slice and `curr_com_id` says so. */
  lemma SomebodySpeaks(n: nat, q: int) returns (s: State)
    requires n >= 1 && q >= 1
    ensures s.n == n && s.q == q && Shape(s) && Reachable(s) && s.com[0].pc.S5? && s.curr == 1
  {
    hide *;
    s := FirstQuestion(n, q);
    s := InSlice(s, 1);
    ReachedIsReachable(s, FirstAnswers(1));
  }

  /** Question `i` + 1. */
  lemma NextQuestion(s: State, i: nat) returns (s': State)
    requires 1 <= i < s.q && Before(s, i) && Reached(s, FirstAnswers(i - 1)) && Others(s, if i == 1 then CLoop else CDone)
    ensures s'.n == s.n && s'.q == s.q && Before(s', i + 1) && Reached(s', FirstAnswers(i)) && Others(s', CDone)
  {
    OneQueued(s.queue);
    hide Reached, Push, Pop, FirstAnswers;
    s' := Round(s, i);
    s' := Returns(s', FirstAnswers(i));
  }

  lemma {:induction false} LastQuestion(n: nat, q: int, i: nat) returns (s: State)
    requires n >= 1 && 1 <= i <= q
    ensures s.n == n && s.q == q && Before(s, i) && Reached(s, FirstAnswers(i - 1))
    ensures Others(s, if i == 1 then CLoop else CDone)
  {
    hide *;
    if i == 1 {
      s := FirstQuestion(n, q);
    } else {
      s := LastQuestion(n, q, i - 1);
      s := NextQuestion(s, i - 1);
    }
  }

  /** Lines 105, 101, 112 and 116, with every question asked. */
  lemma ModReturns(s: State, log: Answers) returns (s': State)
    requires Shape(s) && Reached(s, log) && s.mod.pc.G6? && 1 <= s.mod.idx <= s.n && s.queue.size == 0
    requires Done(s.mod.idx - 1) !in s.taken && s.mod.asked >= s.q
    ensures Shape(s') && Reached(s', log)
    ensures s' == s.(mod := s.mod.(pc := MDone), running := false, taken := s.taken + {Done(s.mod.idx - 1)})
  {
    hide Reached;
    s' := ModGoes(s, log);
    s' := ModGoes(s', log);
    s' := ModGoes(s', log);
    s' := ModGoes(s', log);
  }

  /** A debate in which the first commentator answers every question, in order, and the others
      none. */
  lemma LastRound(n: nat, q: int) returns (s: State)
    requires n >= 1 && q >= 1
    ensures Shape(s) && s.n == n && s.q == q && Reached(s, FirstAnswers(q)) && Over(s)
  {
    s := LastQuestion(n, q, q);
    OneQueued(s.queue);
    hide Reached, Push, Pop, FirstAnswers;
    s := Round(s, q);
    s := ModReturns(s, FirstAnswers(q));
    s := GoOn(s, FirstAnswers(q), 0, true);
    s := NewsGoes(s, FirstAnswers(q));
  }

  /** Lines 110 to 116, with no question. */
  lemma ModSkips(s: State, log: Answers) returns (s': State)
    requires Shape(s) && Reached(s, log) && s.mod == Mod(M0, 0, 0) && s.q <= 0 && Question !in s.taken && Mutex2 !in s.taken
    ensures Shape(s') && Reached(s', log)
    ensures s' == s.(mod := Mod(MDone, 0, 0), running := false, taken := s.taken + {Question, Mutex2})
  {
    hide Reached;
    s' := ModGoes(s, log);
    s' := ModGoes(s', log);
    s' := ModGoes(s', log);
    s' := ModGoes(s', log);
    assert s'.taken == s.taken + {Question, Mutex2};
  }

  lemma Starts(n: nat, q: int) returns (s: State)
    ensures Shape(s) && Reached(s, []) && s.n == n && s.q == q && s.mod == Mod(M0, 0, 0) && s.news.B1?
    ensures Question !in s.taken && Mutex1 !in s.taken && Mutex2 !in s.taken
    ensures forall c :: 0 <= c < n ==> s.com[c].pc.CLoop?
  {
    s := Init(n, q);
    assert LeadsTo(s, [], []);
  }

  /** A debate without a question. */
  lemma NoQuestion(n: nat, q: int) returns (s: State)
    requires q <= 0
    ensures Shape(s) && s.n == n && s.q == q && Reached(s, []) && Over(s)
  {
    hide Reached;
    s := Starts(n, q);
    s := OthersLeave(s, [], 0);
    s := ModSkips(s, []);
    s := NewsGoes(s, []);
  }

  // ---- When there is no end ----------------------------------------------------------------------------------

  /** With nobody to answer, the moderator gets no further than line 94. */
  predicate Waits(s: State) {
    && s.n == 0 && s.q >= 1
    && (s.mod.pc.M0? || s.mod.pc.M1? || s.mod.pc.MLoop? ==> s.mod.asked == 0)
    && (s.mod.pc.M0? || s.mod.pc.M1? || s.mod.pc.MLoop? || s.mod.pc.A1?
        || (Mutex1 in s.taken && (s.mod.pc.A2? || s.mod.pc.A3? || s.mod.pc.A4? || s.mod.pc.A5? || s.mod.pc.A6? || s.mod.pc.A7?)))
  }

  lemma StepKeepsWaits(s: State, a: Action)
    requires Shape(s) && Waits(s) && Step(s, a).Some?
    ensures Waits(Step(s, a).value)
  {
  }

  lemma {:induction false} NobodyToAnswer(q: int, actions: seq<Action>)
    requires q >= 1 && Run(Init(0, q), actions).Some?
    ensures Waits(Run(Init(0, q), actions).value)
    decreases |actions|
  {
    if actions != [] {
      var before := actions[..|actions| - 1];
      NobodyToAnswer(q, before);
      StepKeepsWaits(Run(Init(0, q), before).value, actions[|actions| - 1]);
    }
  }

  predicate Ends(n: nat, q: int, actions: seq<Action>) {
    Run(Init(n, q), actions).Some? && Over(Run(Init(n, q), actions).value)
  }

  predicate ModeratorReturns(n: nat, q: int, actions: seq<Action>) {
    Run(Init(n, q), actions).Some? && Run(Init(n, q), actions).value.mod.pc.MDone?
  }

  lemma SomeRunEnds(n: nat, q: int) returns (actions: seq<Action>)
    requires n >= 1 || q <= 0
    ensures Ends(n, q, actions)
    ensures q >= 1 ==> AnswersOf(Init(n, q), actions) == FirstAnswers(q)
  {
    var s: State;
    if q <= 0 {
      s := NoQuestion(n, q);
      actions :| LeadsTo(s, [], actions);
    } else {
      s := LastRound(n, q);
      actions :| LeadsTo(s, FirstAnswers(q), actions);
    }
  }

  /** A debate can come to its end, with every thread returned, if and only if there is somebody
      to answer or nothing is asked; otherwise not even the moderator ever returns. */
  lemma EndsIff(n: nat, q: int)
    ensures (exists actions :: Ends(n, q, actions)) <==> n >= 1 || q <= 0
    ensures (exists actions :: ModeratorReturns(n, q, actions)) <==> n >= 1 || q <= 0
  {
    if n >= 1 || q <= 0 {
      var actions := SomeRunEnds(n, q);
      assert Ends(n, q, actions) && ModeratorReturns(n, q, actions);
    } else {
      forall actions
        ensures !ModeratorReturns(n, q, actions) && !Ends(n, q, actions)
      {
        if Run(Init(n, q), actions).Some? {
          NobodyToAnswer(q, actions);
        }
      }
    }
  }
}
