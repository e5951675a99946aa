/** What one thread of the debate does when it runs alone for a while: breaking news goes on
    the air, and a speech has its slices; and how often the loops are taken. */
module DebateActs {
  import opened Wrappers
  import opened RingQueue
  import opened Debate
  import opened DebateInvariant

  /** The same action `k` times. */
  function Again(a: Action, k: nat): (actions: seq<Action>)
    ensures |actions| == k
  {
    seq(k, _ => a)
  }

  /** Taking the action `k` times leads from one state to the other. */
  predicate Leads(s: State, a: Action, k: nat, s': State)
    requires Shape(s)
  {
    Run(s, Again(a, k)) == Some(s')
  }

  lemma Starts(s: State, a: Action)
    requires Shape(s)
    ensures Leads(s, a, 0, s)
  {
  }

  lemma Goes(s: State, a: Action, k: nat, now: State) returns (s': State)
    requires Shape(s) && Leads(s, a, k, now) && Shape(now) && Step(now, a).Some?
    ensures s' == Step(now, a).value && Shape(s') && Leads(s, a, k + 1, s')
  {
    s' := Step(now, a).value;
    StepKeepsShape(now, a);
    assert Again(a, k + 1)[..k] == Again(a, k);
    hide Step;
  }

  lemma ComGoes(s: State, c: nat, choice: bool, k: nat, now: State) returns (s': State)
    requires Shape(s) && Leads(s, Commentator(c, choice), k, now) && Shape(now)
    requires c < now.n && ComStep(now, c, choice).Some?
    ensures s' == ComStep(now, c, choice).value && Shape(s') && Leads(s, Commentator(c, choice), k + 1, s')
  {
    hide Leads;
    s' := Goes(s, Commentator(c, choice), k, now);
  }

  lemma NewsGoes(s: State, k: nat, now: State) returns (s': State)
    requires Shape(s) && Leads(s, News(true), k, now) && Shape(now) && NewsStep(now, true).Some?
    ensures s' == NewsStep(now, true).value && Shape(s') && Leads(s, News(true), k + 1, s')
  {
    hide Leads;
    s' := Goes(s, News(true), k, now);
  }

  // ---- Breaking news -----------------------------------------------------------------------------

  lemma StepKeepsRunning(s: State, a: Action)
    requires Shape(s) && (s.running <==> !s.mod.pc.MDone?) && Step(s, a).Some?
    ensures var s' := Step(s, a).value; s'.running <==> !s'.mod.pc.MDone?
  {
  }

  /** `_running` says whether the moderator has returned. */
  lemma {:induction false} RunningUntilDone(n: nat, q: int, actions: seq<Action>, s: State)
    requires Run(Init(n, q), actions) == Some(s)
    ensures s.running <==> !s.mod.pc.MDone?
    decreases |actions|
  {
    if actions != [] {
      var before, last := actions[..|actions| - 1], actions[|actions| - 1];
      RunningUntilDone(n, q, before, Run(Init(n, q), before).value);
      StepKeepsRunning(Run(Init(n, q), before).value, last);
    }
  }

  lemma GoesOnAir(s: State) returns (s': State)
    requires Shape(s) && s.news.B1? && s.running && BreakingNews !in s.taken
    ensures s' == s.(news := B3, taken := s.taken + {BreakingNews}) && Leads(s, News(true), 2, s')
  {
    Starts(s, News(true));
    hide Leads;
    s' := NewsGoes(s, 0, s);
    s' := NewsGoes(s, 1, s');
  }

  lemma GoesOffAir(s: State)
    requires Shape(s) && s.news.B1? && s.running && BreakingNews !in s.taken
    ensures Leads(s, News(true), 4, s)
  {
    hide Leads;
    var s' := GoesOnAir(s);
    s' := NewsGoes(s, 2, s');
    s' := NewsGoes(s, 3, s');
    assert s'.taken == s.taken;
  }

  /** Breaking news at the head of its loop.  Before the moderator has returned it waits or, if
      nobody has `bnews_mutex`, goes on the air and off again, and leaves everything as it was;
      after that it ends. */
  lemma NewsAirs(n: nat, q: int, actions: seq<Action>, s: State, choice: bool)
    requires Run(Init(n, q), actions) == Some(s) && s.news.B1?
    ensures s.mod.pc.MDone? ==> Step(s, News(choice)) == Some(s.(news := BDone))
    ensures !s.mod.pc.MDone? ==> Step(s, News(choice)) == Some(s.(news := if choice then B2 else B1))
    ensures !s.mod.pc.MDone? && BreakingNews !in s.taken ==>
      var air := Run(s, Again(News(true), 2));
      && air.Some? && OnAir(air.value.news) && BreakingNews in air.value.taken
      && Run(s, Again(News(true), 4)) == Some(s)
  {
    RunningUntilDone(n, q, actions, s);
    if s.running && BreakingNews !in s.taken {
      var air := GoesOnAir(s);
      GoesOffAir(s);
    }
    hide Run;
  }

  /** Whatever the numbers, news can be the first thing to happen. */
  lemma NewsCanComeFirst(n: nat, q: int)
    ensures var air := Run(Init(n, q), Again(News(true), 2)); air.Some? && OnAir(air.value.news)
  {
    var air := GoesOnAir(Init(n, q));
  }

  // ---- A commentator alone ------------------------------------------------------------------------

  /** One slice: `bnews_mutex` is taken and `curr_com_id` set. */
  lemma SliceBegins(s: State, c: nat) returns (s': State)
    requires Shape(s) && c < s.n && s.com[c].pc.S2? && BreakingNews !in s.taken
    ensures Shape(s') && Leads(s, Commentator(c, true), 3, s')
    ensures s' == s.(com := s.com[c := s.com[c].(pc := S5)], curr := c + 1, taken := s.taken + {BreakingNews})
  {
    Starts(s, Commentator(c, true));
    hide Leads;
    s' := ComGoes(s, c, true, 0, s);
    s' := ComGoes(s, c, true, 1, s');
    s' := ComGoes(s, c, true, 2, s');
  }

  /** Then the lock is released, and it is time for the next one. */
  lemma SliceEnds(s: State, c: nat)
    requires Shape(s) && c < s.n && s.com[c].pc.S2? && BreakingNews !in s.taken
    ensures Leads(s, Commentator(c, true), 4, s.(curr := c + 1))
  {
    hide Leads;
    var s' := SliceBegins(s, c);
    s' := ComGoes(s, c, true, 3, s');
    assert s'.taken == s.taken && s'.com == s.com;
  }

  /** Whenever a commentator has speaking time left and nobody has `bnews_mutex`, it can speak a
      slice: its id is the current one in the middle of it, and afterwards the lock is free. */
  lemma CanSpeak(n: nat, q: int, actions: seq<Action>, s: State, c: nat)
    requires Run(Init(n, q), actions) == Some(s) && c < n && s.com[c].pc.S2? && BreakingNews !in s.taken
    ensures var during := Run(s, Again(Commentator(c, true), 3));
      && during.Some? && during.value.com[c].pc.S5? && during.value.curr == c + 1 && BreakingNews in during.value.taken
      && Run(s, Again(Commentator(c, true), 4)) == Some(s.(curr := c + 1))
  {
    var during := SliceBegins(s, c);
    SliceEnds(s, c);
    hide Run;
  }

  lemma {:induction false} AgainAdds(s: State, a: Action, k: nat, m: nat, now: State)
    requires Shape(s) && Leads(s, a, k, now)
    ensures Run(s, Again(a, k + m)) == Run(now, Again(a, m))
    decreases m
  {
    hide Step;
    if m > 0 {
      AgainAdds(s, a, k, m - 1, now);
      assert Again(a, k + m)[..k + m - 1] == Again(a, k + m - 1);
      assert Again(a, m)[..m - 1] == Again(a, m - 1);
    }
  }

  lemma LeadsOn(s: State, a: Action, k: nat, now: State, m: nat, s': State)
    requires Shape(s) && Shape(now) && Leads(s, a, k, now) && Leads(now, a, m, s')
    ensures Leads(s, a, k + m, s')
  {
    AgainAdds(s, a, k, m, now);
  }

  /** A speech can have any number of slices. */
  lemma {:induction false} ManySlices(s: State, c: nat, k: nat)
    requires Shape(s) && c < s.n && s.com[c].pc.S2? && BreakingNews !in s.taken
    ensures Leads(s, Commentator(c, true), 4 * k, if k == 0 then s else s.(curr := c + 1))
    decreases k
  {
    Starts(s, Commentator(c, true));
    hide Leads;
    if k > 0 {
      var rest := s.(curr := c + 1);
      SliceEnds(s, c);
      ManySlices(rest, c, k - 1);
      assert 4 * k == 4 + 4 * (k - 1);
      LeadsOn(s, Commentator(c, true), 4, rest, 4 * (k - 1), rest);
    }
  }

  /** Behind the last slice `curr_com_id` is cleared. */
  lemma SlicesEnd(s: State, c: nat) returns (s': State)
    requires Shape(s) && c < s.n && s.com[c].pc.S2?
    ensures Shape(s') && Leads(s, Commentator(c, false), 2, s')
    ensures s' == s.(com := s.com[c := s.com[c].(pc := S7)], curr := -1)
  {
    Starts(s, Commentator(c, false));
    hide Leads;
    s' := ComGoes(s, c, false, 0, s);
    s' := ComGoes(s, c, false, 1, s');
  }

  /** Then the turn is given back. */
  lemma SpeechEnds(s: State, c: nat) returns (s': State)
    requires Shape(s) && c < s.n && s.com[c].pc.S2?
    ensures Shape(s') && Leads(s, Commentator(c, false), 4, s')
    ensures s' == s.(com := s.com[c := s.com[c].(pc := CLoop)], curr := -1, taken := s.taken - {Mutex2, Done(c)})
  {
    hide Leads;
    s' := SlicesEnd(s, c);
    s' := ComGoes(s, c, false, 2, s');
    s' := ComGoes(s, c, false, 3, s');
    assert s'.taken == s.taken - {Mutex2, Done(c)};
  }

  // ---- The queue, check and update -----------------------------------------------------------------

  /** With nobody in between, check and update of `enqueue` are one call of it on the queue, full
      or not. */
  lemma EnqueueIsOneCall(s: State, c: nat) returns (s': State)
    requires Shape(s) && Consistent(s.queue) && c < s.n && s.com[c].pc.E1?
    ensures Shape(s') && Leads(s, Commentator(c, true), if s.queue.size == s.n then 1 else 2, s')
    ensures var (queue, pos) := Apply(s.queue, Enqueue(c + 1));
      s' == s.(com := s.com[c := Com(F1, s.com[c].round, pos)], queue := queue)
  {
    Starts(s, Commentator(c, true));
    hide Leads, Consistent, Push;
    s' := ComGoes(s, c, true, 0, s);
    if s.queue.size != s.n {
      s' := ComGoes(s, c, true, 1, s');
    }
  }

  lemma ModGoes(s: State, k: nat, now: State) returns (s': State)
    requires Shape(s) && Leads(s, Moderator, k, now) && Shape(now) && ModStep(now).Some?
    ensures s' == ModStep(now).value && Shape(s') && Leads(s, Moderator, k + 1, s')
  {
    hide Leads;
    s' := Goes(s, Moderator, k, now);
  }

  /** The same for `dequeue`, empty or not. */
  lemma DequeueIsOneCall(s: State) returns (s': State)
    requires Shape(s) && Consistent(s.queue) && s.mod.pc.G2?
    ensures Shape(s') && Leads(s, Moderator, if s.queue.size == 0 then 1 else 2, s')
    ensures var (queue, id) := Apply(s.queue, Dequeue);
      s' == s.(mod := Mod(G4, s.mod.asked, id), queue := queue)
  {
    Starts(s, Moderator);
    assert s.queue.size > 0 ==> s.n > 0;
    hide Leads, Consistent, Pop;
    s' := ModGoes(s, 0, s);
    if s.queue.size != 0 {
      s' := ModGoes(s, 1, s');
    }
  }

  // ---- How often ------------------------------------------------------------------------------------

  function Most(q: int): nat {
    if q < 0 then 0 else q
  }

  /** The counters of the loops. */
  predicate Counted(s: State)
    requires Shape(s)
  {
    && 0 <= s.mod.asked <= Most(s.q)
    && (s.mod.pc.M0? || s.mod.pc.M1? ==> s.mod.asked == 0)
    && (s.mod.pc.MEnd? || s.mod.pc.MDone? ==> s.mod.asked == Most(s.q))
    && (forall c :: 0 <= c < s.n ==> 0 <= s.com[c].round <= Most(s.q))
    && (forall c :: 0 <= c < s.n && s.com[c].pc.CDone? ==> s.com[c].round == Most(s.q))
  }

  lemma ComKeepsCounted(s: State, c: nat, choice: bool)
    requires Shape(s) && Counted(s) && c < s.n && ComStep(s, c, choice).Some?
    ensures Shape(ComStep(s, c, choice).value) && Counted(ComStep(s, c, choice).value)
  {
    ComKeepsShape(s, c, choice);
    var s' := ComStep(s, c, choice).value;
    assert s'.mod == s.mod && forall d :: 0 <= d < s.n && d != c ==> s'.com[d] == s.com[d];
  }

  lemma StepKeepsCounted(s: State, a: Action)
    requires Shape(s) && Counted(s) && Step(s, a).Some?
    ensures Shape(Step(s, a).value) && Counted(Step(s, a).value)
  {
    StepKeepsShape(s, a);
    match a
    case Moderator => assert ModStep(s).value.com == s.com;
    case Commentator(c, choice) =>
      hide Counted, ComStep;
      ComKeepsCounted(s, c, choice);
    case News(choice) =>
  }

  /** The moderator and the commentators take their loops `q` times, no more, and leave them
      only then; not at all when `q` is negative. */
  lemma {:induction false} RunKeepsCounted(n: nat, q: int, actions: seq<Action>, s: State)
    requires Run(Init(n, q), actions) == Some(s)
    ensures Counted(s)
    decreases |actions|
  {
    if actions != [] {
      var before, last := actions[..|actions| - 1], actions[|actions| - 1];
      RunKeepsCounted(n, q, before, Run(Init(n, q), before).value);
      StepKeepsCounted(Run(Init(n, q), before).value, last);
    }
  }
}
