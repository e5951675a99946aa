/** Stretches of a run in which one thread takes its lines one after the other. */
module DebateRuns {
  import opened Wrappers
  import opened RingQueue
  import opened Debate
  import opened DebateProgress
  import opened DebateAnswers

  ghost predicate Reachable(s: State) {
    exists actions :: Run(Init(s.n, s.q), actions) == Some(s)
  }

  predicate LeadsTo(s: State, log: Answers, actions: seq<Action>) {
    Run(Init(s.n, s.q), actions) == Some(s) && AnswersOf(Init(s.n, s.q), actions) == log
  }

  /** Some run ends in `s` with the answers `log`. */
  ghost predicate Reached(s: State, log: Answers) {
    exists actions :: LeadsTo(s, log, actions)
  }

  lemma ReachedIsReachable(s: State, log: Answers)
    requires Reached(s, log)
    ensures Reachable(s) && All(s)
  {
    var actions :| LeadsTo(s, log, actions);
    RunKeepsAll(s.n, s.q, actions);
  }

  lemma Go(s: State, log: Answers, a: Action) returns (s': State)
    requires Shape(s) && Reached(s, log) && Step(s, a).Some?
    ensures s' == Step(s, a).value && Shape(s') && Reached(s', RecordAnswer(log, s, a))
  {
    s' := Step(s, a).value;
    StepKeepsShape(s, a);
    var actions :| LeadsTo(s, log, actions);
    var all := actions + [a];
    assert all[..|all| - 1] == actions;
    assert LeadsTo(s', RecordAnswer(log, s, a), all);
  }

  lemma GoOn(s: State, log: Answers, c: nat, choice: bool) returns (s': State)
    requires Shape(s) && Reached(s, log) && c < s.n && ComStep(s, c, choice).Some? && !s.com[c].pc.E2?
    ensures s' == ComStep(s, c, choice).value && Shape(s') && Reached(s', log)
  {
    hide Reached;
    s' := Go(s, log, Commentator(c, choice));
  }

  lemma ModGoes(s: State, log: Answers) returns (s': State)
    requires Shape(s) && Reached(s, log) && ModStep(s).Some?
    ensures s' == ModStep(s).value && Shape(s') && Reached(s', log)
  {
    hide Reached;
    s' := Go(s, log, Moderator);
  }

  /** Lines 110 to 112. */
  lemma Begins(n: nat, q: int) returns (s: State)
    requires q >= 1
    ensures Shape(s) && Reached(s, [])
    ensures s == Init(n, q).(mod := Mod(A1, 1, 0), taken := Init(n, q).taken + {Question, Mutex2})
  {
    s := Init(n, q);
    assert LeadsTo(s, [], []);
    hide Reached;
    s := ModGoes(s, []);
    s := ModGoes(s, []);
    s := ModGoes(s, []);
    assert s.taken == Init(n, q).taken + {Question, Mutex2};
  }

  /** Lines 84 to 90. */
  lemma Asks(s: State, log: Answers) returns (s': State)
    requires Shape(s) && Reached(s, log) && s.mod.pc.A1?
    requires Mutex1 !in s.taken && BreakingNews !in s.taken && Mutex3 !in s.taken
    ensures Shape(s') && Reached(s', log)
    ensures s' == s.(mod := s.mod.(pc := A5), taken := s.taken + {Mutex1, BreakingNews, Mutex3} - {Question})
  {
    hide Reached;
    s' := ModGoes(s, log);
    s' := ModGoes(s', log);
    s' := ModGoes(s', log);
    s' := ModGoes(s', log);
    assert s'.taken == s.taken + {Mutex1, BreakingNews, Mutex3} - {Question};
  }

  /** Lines 92 and 93. */
  lemma Counts(s: State, log: Answers) returns (s': State)
    requires Shape(s) && Reached(s, log) && s.mod.pc.A5?
    ensures Shape(s') && Reached(s', log)
    ensures s' == s.(mod := s.mod.(pc := A7), currentSize := s.queue.size, taken := s.taken - {Mutex3})
  {
    hide Reached;
    s' := ModGoes(s, log);
    s' := ModGoes(s', log);
  }

  /** Lines 154, 122 and 123. */
  lemma Hears(s: State, log: Answers, c: nat) returns (s': State)
    requires Shape(s) && Reached(s, log) && c < s.n && s.com[c].pc.CLoop? && s.com[c].round < s.q
    requires Question !in s.taken
    ensures Shape(s') && Reached(s', log)
    ensures s' == s.(com := s.com[c := Com(P, s.com[c].round + 1, s.com[c].pos)])
  {
    hide Reached;
    s' := GoOn(s, log, c, true);
    s' := GoOn(s', log, c, true);
    s' := GoOn(s', log, c, true);
    assert s'.taken == s.taken;
  }

  /** Lines 156 and 157: an answer goes into the queue and the record. */
  lemma Replies(s: State, log: Answers, c: nat) returns (s': State)
    requires Shape(s) && Reached(s, log) && c < s.n && s.com[c].pc.P? && s.queue.size != s.n
    ensures Shape(s') && Reached(s', log + [(c, s.mod.asked)])
    ensures s' == s.(com := s.com[c := Com(F1, s.com[c].round, s.queue.size)], queue := Push(s.queue, c + 1))
  {
    hide Reached, Push;
    s' := GoOn(s, log, c, true);
    s' := GoOn(s', log, c, true);
    s' := Go(s', log, Commentator(c, true));
  }

  /** Lines 128, 129, 161 and 162, for a position that compares equal. */
  lemma Wakes(s: State, log: Answers, c: nat) returns (s': State)
    requires Shape(s) && Reached(s, log) && c < s.n && s.com[c].pc.F1? && s.com[c].pos == s.currentSize - 1 && Mutex3 !in s.taken
    ensures Shape(s') && Reached(s', log)
    ensures s' == s.(com := s.com[c := s.com[c].(pc := U2)], taken := s.taken - {Mutex1})
  {
    hide Reached;
    s' := GoOn(s, log, c, true);
    s' := GoOn(s', log, c, true);
    s' := GoOn(s', log, c, true);
    s' := GoOn(s', log, c, true);
    assert s'.taken == s.taken - {Mutex1};
  }

  /** Line 163. */
  lemma Retakes(s: State, log: Answers, c: nat) returns (s': State)
    requires Shape(s) && Reached(s, log) && c < s.n && s.com[c].pc.U2? && Question !in s.taken
    ensures Shape(s') && Reached(s', log)
    ensures s' == s.(com := s.com[c := s.com[c].(pc := L1)], taken := s.taken + {Question})
  {
    s' := GoOn(s, log, c, true);
  }

  /** Lines 94 to 96. */
  lemma Passes(s: State, log: Answers) returns (s': State)
    requires Shape(s) && Reached(s, log) && s.mod.pc.A7? && Mutex1 !in s.taken
    ensures Shape(s') && Reached(s', log)
    ensures s' == s.(mod := s.mod.(pc := G1), taken := s.taken - {Mutex1, BreakingNews})
  {
    hide Reached;
    s' := ModGoes(s, log);
    s' := ModGoes(s', log);
    s' := ModGoes(s', log);
    assert s'.taken == s.taken - {Mutex1, BreakingNews};
  }

  /** Lines 101 to 104, for the first in the queue. */
  lemma Calls(s: State, log: Answers) returns (s': State)
    requires Shape(s) && Reached(s, log) && s.mod.pc.G1?
    requires s.queue.size > 0 && s.n > 0 && 1 <= Pop(s.queue).1 <= s.n
    ensures Shape(s') && Reached(s', log)
    ensures var id := Pop(s.queue).1;
      s' == s.(mod := Mod(G6, s.mod.asked, id), queue := Pop(s.queue).0, taken := s.taken - {Gate(id - 1), Mutex2})
  {
    hide Reached, Pop;
    s' := ModGoes(s, log);
    s' := ModGoes(s', log);
    s' := ModGoes(s', log);
    s' := ModGoes(s', log);
    s' := ModGoes(s', log);
    assert s'.taken == s.taken - {Gate(Pop(s.queue).1 - 1), Mutex2};
  }

  /** Lines 166 to 168. */
  lemma Enters(s: State, log: Answers, c: nat) returns (s': State)
    requires Shape(s) && Reached(s, log) && c < s.n && s.com[c].pc.L1?
    requires Mutex1 !in s.taken && Gate(c) !in s.taken
    ensures Shape(s') && Reached(s', log)
    ensures s' == s.(com := s.com[c := s.com[c].(pc := S1)], taken := s.taken + {Gate(c)})
  {
    hide Reached;
    s' := GoOn(s, log, c, true);
    s' := GoOn(s', log, c, true);
    s' := GoOn(s', log, c, true);
    assert s'.taken == s.taken + {Gate(c)};
  }

  /** Lines 169 and 170, for a speech of no length. */
  lemma Speaks(s: State, log: Answers, c: nat) returns (s': State)
    requires Shape(s) && Reached(s, log) && c < s.n && s.com[c].pc.S1? && Mutex2 !in s.taken
    ensures Shape(s') && Reached(s', log)
    ensures s' == s.(com := s.com[c := s.com[c].(pc := CLoop)], curr := -1, taken := s.taken - {Done(c)})
  {
    hide Reached;
    s' := GoOn(s, log, c, false);
    s' := GoOn(s', log, c, false);
    s' := GoOn(s', log, c, false);
    s' := GoOn(s', log, c, false);
    s' := GoOn(s', log, c, false);
    assert s'.taken == s.taken - {Done(c)};
  }

  /** Lines 105, 101 and 112, with nobody left in the queue and a question left. */
  lemma Returns(s: State, log: Answers) returns (s': State)
    requires Shape(s) && Reached(s, log) && s.mod.pc.G6? && 1 <= s.mod.idx <= s.n && s.queue.size == 0
    requires Done(s.mod.idx - 1) !in s.taken && s.mod.asked < s.q
    ensures Shape(s') && Reached(s', log)
    ensures s' == s.(mod := Mod(A1, s.mod.asked + 1, s.mod.idx), taken := s.taken + {Done(s.mod.idx - 1)})
  {
    hide Reached;
    s' := ModGoes(s, log);
    s' := ModGoes(s', log);
    s' := ModGoes(s', log);
  }

  /** Line 105. */
  lemma Resumes(s: State, log: Answers) returns (s': State)
    requires Shape(s) && Reached(s, log) && s.mod.pc.G6? && 1 <= s.mod.idx <= s.n && Done(s.mod.idx - 1) !in s.taken
    ensures Shape(s') && Reached(s', log)
    ensures s' == s.(mod := s.mod.(pc := G1), taken := s.taken + {Done(s.mod.idx - 1)})
  {
    hide Reached;
    s' := ModGoes(s, log);
  }

  /** Lines 128, 129 and 161, for a position that does not compare equal. */
  lemma Compares(s: State, log: Answers, c: nat) returns (s': State)
    requires Shape(s) && Reached(s, log) && c < s.n && s.com[c].pc.F1? && s.com[c].pos != s.currentSize - 1 && Mutex3 !in s.taken
    ensures Shape(s') && Reached(s', log)
    ensures s' == s.(com := s.com[c := s.com[c].(pc := L1)])
  {
    hide Reached;
    s' := GoOn(s, log, c, true);
    s' := GoOn(s', log, c, true);
    s' := GoOn(s', log, c, true);
    assert s'.taken == s.taken;
  }
}
