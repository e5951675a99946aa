/** What every step of the debate keeps.

    The heart is `TokenOk`: the hand-over of a turn from the queue to the moderator, to
    the gate, to the speaker and back, followed for one commentator at a time. */
module DebateInvariant {
  import opened Wrappers
  import opened RingQueue
  import opened Sequences
  import opened Debate

  /** Has queued an answer and not passed the gate yet. */
  predicate Waiting(pc: ComPc) {
    pc.F1? || pc.F2? || pc.D? || pc.U1? || pc.U2? || pc.L1? || pc.L2? || pc.T1?
  }

  /** Has the turn: from behind the gate to the release of `mutex_2`. */
  predicate Speaking(pc: ComPc) {
    pc.S1? || pc.S2? || pc.S3? || pc.S4? || pc.S5? || pc.S6? || pc.S7? || pc.S8?
  }

  /** What the moderator is doing with commentator `c`. */
  datatype Hand = Idle | Popped | Invited

  predicate Calling(pc: ModPc) {
    pc.G5? || pc.G6?
  }

  function HandOf(m: Mod, c: int): Hand {
    if m.idx != c + 1 then Idle
    else if m.pc.G4? then Popped
    else if Calling(m.pc) then Invited
    else Idle
  }

  /** The token of one commentator.  While it waits it has exactly one: its id is queued, or
      is in the moderator's hand, or its gate is open.  Once called, exactly one of gate
      open, speaking, done signalled holds until the moderator takes the signal. */
  predicate TokenOk(pc: ComPc, gate: bool, done: bool, queued: bool, hand: Hand) {
    match hand
    case Idle => gate && done && !Speaking(pc) && (Waiting(pc) <==> queued)
    case Popped => gate && done && Waiting(pc) && !queued
    case Invited =>
      || (!gate && done && Waiting(pc) && !queued)
      || (gate && done && Speaking(pc) && !queued)
      || (gate && !done && !Speaking(pc) && (Waiting(pc) <==> queued))
  }

  predicate Queued(s: State, c: int)
    requires Consistent(s.queue)
  {
    c + 1 in Contents(s.queue)
  }

  predicate TokenAt(s: State, c: int)
    requires Shape(s) && Consistent(s.queue) && 0 <= c < s.n
  {
    TokenOk(s.com[c].pc, Gate(c) in s.taken, Done(c) in s.taken, Queued(s, c), HandOf(s.mod, c))
  }

  predicate Tokens(s: State)
    requires Shape(s) && Consistent(s.queue)
  {
    forall c :: 0 <= c < s.n ==> TokenAt(s, c)
  }

  predicate IdsOnly(q: seq<int>, n: nat) {
    forall i :: 0 <= i < |q| ==> 1 <= q[i] <= n
  }

  predicate QueueOk(s: State)
    requires Shape(s)
  {
    && Consistent(s.queue)
    && Distinct(Contents(s.queue))
    && IdsOnly(Contents(s.queue), s.n)
    && !s.mod.pc.Wild?
    && (s.mod.pc.G2? || s.mod.pc.G3? ==> s.queue.size > 0)
    && (s.mod.pc.G4? || Calling(s.mod.pc) ==> 1 <= s.mod.idx <= s.n)
  }

  predicate HoldsMutex3(pc: ModPc) {
    pc.A4? || pc.A5? || pc.A6?
  }

  /** `mutex3` is released only by the thread that took it. */
  predicate Mutex3Ok(s: State)
    requires Shape(s)
  {
    && (HoldsMutex3(s.mod.pc) ==> Mutex3 in s.taken)
    && (forall c :: 0 <= c < s.n && s.com[c].pc.F2? ==> Mutex3 in s.taken && !HoldsMutex3(s.mod.pc))
    && (forall c, d :: 0 <= c < d < s.n && s.com[c].pc.F2? ==> !s.com[d].pc.F2?)
  }

  predicate Asking(pc: ModPc) {
    pc.A3? || pc.A4? || pc.A5? || pc.A6? || pc.A7? || pc.A8? || pc.A9?
  }

  predicate OnAir(pc: NewsPc) {
    pc.B3? || pc.B4?
  }

  /** Inside a slice of speaking time. */
  predicate InSlice(pc: ComPc) {
    pc.S4? || pc.S5?
  }

  /** The called commentator. */
  function Called(s: State): (c: int) {
    s.mod.idx - 1
  }

  predicate SliceRuns(s: State)
    requires Shape(s)
  {
    Calling(s.mod.pc) && 0 <= Called(s) < s.n && InSlice(s.com[Called(s)].pc)
  }

  /** `bnews_mutex` has at most one user and is taken exactly while it has one. */
  predicate NewsOk(s: State)
    requires Shape(s)
  {
    && (BreakingNews in s.taken <==> Asking(s.mod.pc) || OnAir(s.news) || SliceRuns(s))
    && !(Asking(s.mod.pc) && OnAir(s.news))
    && !(SliceRuns(s) && OnAir(s.news))
  }

  /** Lines at which a speaker may have its id in `curr_com_id`. */
  predicate MayBeCurrent(pc: ComPc) {
    pc.S2? || pc.S3? || pc.S4? || pc.S5? || pc.S6?
  }

  predicate CurrOk(s: State)
    requires Shape(s)
  {
    && (s.curr != -1 ==>
          Calling(s.mod.pc) && s.curr == s.mod.idx && 1 <= s.curr <= s.n && MayBeCurrent(s.com[s.curr - 1].pc))
    && (forall c :: 0 <= c < s.n && s.com[c].pc.S5? ==> s.curr == c + 1)
  }

  predicate Inv(s: State) {
    && Shape(s)
    && QueueOk(s)
    && Tokens(s)
    && Mutex3Ok(s)
    && NewsOk(s)
    && CurrOk(s)
  }

  // ---- Counting -------------------------------------------------------------------

  function Ids(n: nat): (ids: set<int>)
    ensures forall x :: x in ids <==> 1 <= x <= n
    ensures |ids| == n
  {
    if n == 0 then {} else Ids(n - 1) + {n}
  }

  /** A commentator that is not queued leaves a free slot. */
  lemma RoomFor(s: State, c: int)
    requires Shape(s) && QueueOk(s) && 0 <= c < s.n && !Queued(s, c)
    ensures s.queue.size < s.n
  {
    DistinctFits(Contents(s.queue) + [c + 1], Ids(s.n));
  }

  // ---- The moderator's steps --------------------------------------------------------

  predicate TakesLock(s: State) {
    !ModLock(s.mod).NoLock?
  }

  lemma ModLockKeepsTokens(s: State)
    requires Shape(s) && QueueOk(s) && Tokens(s) && TakesLock(s) && ModStep(s).Some?
    ensures var s' := ModStep(s).value; Shape(s') && QueueOk(s') && Tokens(s')
  {
    ModKeepsShape(s);
    var s' := ModStep(s).value;
    assert Contents(s'.queue) == Contents(s.queue);
    forall c | 0 <= c < s'.n
      ensures TokenAt(s', c)
    {
      TokenOf(s, c);
    }
  }

  lemma ModPopKeepsTokens(s: State)
    requires Shape(s) && QueueOk(s) && Tokens(s) && s.mod.pc.G3?
    ensures var s' := ModLocal(s); Shape(s') && QueueOk(s') && Tokens(s')
  {
    var s' := ModLocal(s);
    PopRemovesHead(s.queue);
    var q, q' := Contents(s.queue), Contents(s'.queue);
    assert q == [s'.mod.idx] + q' && q[0] == s'.mod.idx;
    assert q' == q[1..];
    forall c | 0 <= c < s'.n
      ensures TokenAt(s', c)
    {
      TokenOf(s, c);
      assert c + 1 in q <==> c + 1 == s'.mod.idx || c + 1 in q';
      assert c + 1 == s'.mod.idx ==> c + 1 !in q';
    }
  }

  lemma ModLocalKeepsTokens(s: State)
    requires Shape(s) && QueueOk(s) && Tokens(s) && !TakesLock(s) && !s.mod.pc.G3? && ModStep(s).Some?
    ensures var s' := ModStep(s).value; Shape(s') && QueueOk(s') && Tokens(s')
  {
    ModKeepsShape(s);
    var s' := ModStep(s).value;
    assert Contents(s'.queue) == Contents(s.queue);
    forall c | 0 <= c < s'.n
      ensures TokenAt(s', c)
    {
      TokenOf(s, c);
    }
  }

  lemma ModKeepsMutex3(s: State)
    requires Shape(s) && Mutex3Ok(s) && ModStep(s).Some?
    ensures var s' := ModStep(s).value; Shape(s') && Mutex3Ok(s')
  {
    ModKeepsShape(s);
  }

  /** The token of one commentator. */
  lemma TokenOf(s: State, c: int)
    requires Shape(s) && Consistent(s.queue) && Tokens(s) && 0 <= c < s.n
    ensures TokenAt(s, c)
  {
  }

  /** Only the called commentator is past its gate. */
  predicate OnlyCalledSpeaks(s: State)
    requires Shape(s)
  {
    forall c :: 0 <= c < s.n && Speaking(s.com[c].pc) ==> Calling(s.mod.pc) && s.mod.idx == c + 1
  }

  lemma SpeakerIsCalled(s: State)
    requires Shape(s) && Consistent(s.queue) && Tokens(s)
    ensures OnlyCalledSpeaks(s)
  {
    forall c | 0 <= c < s.n && Speaking(s.com[c].pc)
      ensures Calling(s.mod.pc) && s.mod.idx == c + 1
    {
      TokenOf(s, c);
    }
  }

  lemma ModKeepsNews(s: State, s': State)
    requires Shape(s) && NewsOk(s) && ModStep(s) == Some(s') && Shape(s')
    requires OnlyCalledSpeaks(s) && OnlyCalledSpeaks(s')
    ensures NewsOk(s')
  {
    assert s'.com == s.com && s'.news == s.news;
  }

  lemma ModKeepsCurr(s: State, s': State)
    requires Shape(s) && CurrOk(s) && ModStep(s) == Some(s') && Shape(s')
    requires OnlyCalledSpeaks(s) && OnlyCalledSpeaks(s')
    ensures CurrOk(s')
  {
    assert s'.com == s.com && s'.curr == s.curr;
  }

  lemma ModKeepsInv(s: State)
    requires Inv(s) && ModStep(s).Some?
    ensures Inv(ModStep(s).value)
  {
    if TakesLock(s) {
      ModLockKeepsTokens(s);
    } else if s.mod.pc.G3? {
      ModPopKeepsTokens(s);
    } else {
      ModLocalKeepsTokens(s);
    }
    ModKeepsMutex3(s);
    SpeakerIsCalled(s);
    SpeakerIsCalled(ModStep(s).value);
    ModKeepsNews(s, ModStep(s).value);
    ModKeepsCurr(s, ModStep(s).value);
  }

  // ---- A commentator's steps ----------------------------------------------------------

  lemma ComPushKeepsTokens(s: State, c: nat, choice: bool)
    requires Shape(s) && QueueOk(s) && Tokens(s) && c < s.n && s.com[c].pc.E2?
    ensures var s' := ComLocal(s, c, choice); Shape(s') && QueueOk(s') && Tokens(s')
  {
    var s' := ComLocal(s, c, choice);
    TokenOf(s, c);
    RoomFor(s, c);
    PushAppends(s.queue, c + 1);
    var q, q' := Contents(s.queue), Contents(s'.queue);
    assert q' == q + [c + 1];
    forall d | 0 <= d < s'.n
      ensures TokenAt(s', d)
    {
      TokenOf(s, d);
      assert d + 1 in q' <==> d + 1 in q || d == c;
    }
  }

  lemma ComLockKeepsTokens(s: State, c: nat, choice: bool)
    requires Shape(s) && QueueOk(s) && Tokens(s)
    requires c < s.n && !ComLock(c, s.com[c].pc).NoLock? && ComStep(s, c, choice).Some?
    ensures var s' := ComStep(s, c, choice).value; Shape(s') && QueueOk(s') && Tokens(s')
  {
    ComKeepsShape(s, c, choice);
    var s' := ComStep(s, c, choice).value;
    assert s'.queue == s.queue && s'.mod == s.mod;
    forall d | 0 <= d < s'.n
      ensures TokenAt(s', d)
    {
      TokenOf(s, d);
    }
  }

  lemma ComLocalKeepsTokens(s: State, c: nat, choice: bool)
    requires Shape(s) && QueueOk(s) && Tokens(s)
    requires c < s.n && ComLock(c, s.com[c].pc).NoLock? && !s.com[c].pc.E2?
    ensures var s' := ComLocal(s, c, choice); Shape(s') && QueueOk(s') && Tokens(s')
  {
    var s' := ComLocal(s, c, choice);
    assert s'.queue == s.queue && s'.mod == s.mod && s'.taken == s.taken;
    TokenOf(s, c);
    if s.com[c].pc.E1? {
      RoomFor(s, c);
    }
    forall d | 0 <= d < s'.n
      ensures TokenAt(s', d)
    {
      TokenOf(s, d);
    }
  }

  lemma ComKeepsMutex3(s: State, c: nat, choice: bool)
    requires Shape(s) && Mutex3Ok(s) && c < s.n && ComStep(s, c, choice).Some?
    ensures var s' := ComStep(s, c, choice).value; Shape(s') && Mutex3Ok(s')
  {
    ComKeepsShape(s, c, choice);
    if ComLock(c, s.com[c].pc).NoLock? {
      ComLocalKeepsMutex3(s, c, choice);
    }
  }

  lemma ComLocalKeepsMutex3(s: State, c: nat, choice: bool)
    requires Shape(s) && Mutex3Ok(s) && c < s.n && ComLock(c, s.com[c].pc).NoLock?
    ensures var s' := ComLocal(s, c, choice); Shape(s') && Mutex3Ok(s')
  {
    var s' := ComLocal(s, c, choice);
    assert s'.mod == s.mod && s'.taken == s.taken && !s'.com[c].pc.F2?;
  }

  lemma ComKeepsNews(s: State, c: nat, choice: bool)
    requires Shape(s) && NewsOk(s) && c < s.n && ComStep(s, c, choice).Some?
    requires OnlyCalledSpeaks(s)
    ensures var s' := ComStep(s, c, choice).value; Shape(s') && NewsOk(s')
  {
    ComKeepsShape(s, c, choice);
    var s' := ComStep(s, c, choice).value;
    assert s'.mod == s.mod && s'.news == s.news;
    if !Speaking(s.com[c].pc) {
      assert BreakingNews in s'.taken <==> BreakingNews in s.taken;
      assert !InSlice(s'.com[c].pc) && !InSlice(s.com[c].pc);
    }
  }

  lemma ComKeepsCurr(s: State, c: nat, choice: bool)
    requires Shape(s) && CurrOk(s) && c < s.n && ComStep(s, c, choice).Some?
    requires OnlyCalledSpeaks(s)
    ensures var s' := ComStep(s, c, choice).value; Shape(s') && CurrOk(s')
  {
    ComKeepsShape(s, c, choice);
    var s' := ComStep(s, c, choice).value;
    assert s'.mod == s.mod;
    if !Speaking(s.com[c].pc) {
      assert s'.curr == s.curr && !s'.com[c].pc.S5?;
    }
  }

  lemma ComKeepsInv(s: State, c: nat, choice: bool)
    requires Inv(s) && c < s.n && ComStep(s, c, choice).Some?
    ensures Inv(ComStep(s, c, choice).value)
  {
    if s.com[c].pc.E2? {
      ComPushKeepsTokens(s, c, choice);
    } else if ComLock(c, s.com[c].pc).NoLock? {
      ComLocalKeepsTokens(s, c, choice);
    } else {
      ComLockKeepsTokens(s, c, choice);
    }
    ComKeepsMutex3(s, c, choice);
    SpeakerIsCalled(s);
    ComKeepsNews(s, c, choice);
    ComKeepsCurr(s, c, choice);
  }

  // ---- Every run ------------------------------------------------------------------------

  lemma NewsKeepsInv(s: State, choice: bool)
    requires Inv(s) && NewsStep(s, choice).Some?
    ensures Inv(NewsStep(s, choice).value)
  {
    var s' := NewsStep(s, choice).value;
    NewsLeavesAlone(s, choice);
    NewsKeepsNews(s, choice);
    hide NewsStep;
    assert Mutex3Ok(s') && CurrOk(s');
    NewsKeepsTokens(s, s');
  }

  lemma NewsLeavesAlone(s: State, choice: bool)
    requires NewsStep(s, choice).Some?
    ensures var s' := NewsStep(s, choice).value;
      && s'.n == s.n && s'.com == s.com && s'.mod == s.mod && s'.queue == s.queue && s'.curr == s.curr
      && forall l :: l != BreakingNews ==> (l in s'.taken <==> l in s.taken)
  {
  }

  lemma NewsKeepsNews(s: State, choice: bool)
    requires Shape(s) && NewsOk(s) && NewsStep(s, choice).Some?
    ensures Shape(NewsStep(s, choice).value) && NewsOk(NewsStep(s, choice).value)
  {
  }

  lemma NewsKeepsTokens(s: State, s': State)
    requires Shape(s) && Consistent(s.queue) && Tokens(s)
    requires Shape(s') && s'.n == s.n && s'.queue == s.queue && s'.mod == s.mod && s'.com == s.com
    requires forall l :: l != BreakingNews ==> (l in s'.taken <==> l in s.taken)
    ensures Tokens(s')
  {
    forall c | 0 <= c < s'.n
      ensures TokenAt(s', c)
    {
      TokenOf(s, c);
    }
  }

  lemma StepKeepsInv(s: State, a: Action)
    requires Inv(s) && Step(s, a).Some?
    ensures Inv(Step(s, a).value)
  {
    match a
    case Moderator => ModKeepsInv(s);
    case Commentator(c, choice) => ComKeepsInv(s, c, choice);
    case News(choice) => NewsKeepsInv(s, choice);
  }

  lemma InitInv(n: nat, q: int)
    ensures Inv(Init(n, q))
  {
    var s := Init(n, q);
    forall c | 0 <= c < n
      ensures TokenAt(s, c)
    {
    }
  }

  /** The invariant holds after every interleaving, for any number of commentators. */
  lemma {:induction false} RunKeepsInv(n: nat, q: int, actions: seq<Action>)
    requires Run(Init(n, q), actions).Some?
    ensures Inv(Run(Init(n, q), actions).value)
    decreases |actions|
  {
    if actions == [] {
      InitInv(n, q);
    } else {
      var before := actions[..|actions| - 1];
      RunKeepsInv(n, q, before);
      StepKeepsInv(Run(Init(n, q), before).value, actions[|actions| - 1]);
    }
  }
}
