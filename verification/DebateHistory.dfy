/** What an observer of the debate records, and how the records of every run relate. */
module DebateHistory {
  import opened Wrappers
  import opened RingQueue
  import opened Sequences
  import opened Debate
  import opened DebateInvariant

  /** Thread ids in the order they were queued, were taken off the queue, passed their gate
      and signalled the end of their turn. */
  datatype Order = Order(enq: seq<int>, deq: seq<int>, turns: seq<int>, finished: seq<int>)

  /** The current round.  `base` is the queue length when the moderator took `mutex3`,
      `window` the commentators (from 0) that queued from then until `getSize`, `decided`
      those of them that have compared their position, `leaders` those of `decided` that
      took the branch at line 161. */
  datatype Round = Round(base: int, window: seq<int>, decided: set<int>, leaders: set<int>)

  function RecordOrder(o: Order, s: State, a: Action): Order
    requires Shape(s)
  {
    match a
    case Moderator =>
      if s.mod.pc.G3? && s.n > 0 then o.(deq := o.deq + [Pop(s.queue).1]) else o
    case Commentator(c, _) =>
      if c >= s.n then o
      else if s.com[c].pc.E2? then o.(enq := o.enq + [c + 1])
      else if s.com[c].pc.T1? then o.(turns := o.turns + [c + 1])
      else if s.com[c].pc.S8? then o.(finished := o.finished + [c + 1])
      else o
    case News(_) => o
  }

  /** The moderator has `mutex3` and has not read the size yet. */
  predicate WindowOpen(pc: ModPc) {
    pc.A4? || pc.A5?
  }

  function RecordRound(r: Round, s: State, a: Action): Round
    requires Shape(s)
  {
    match a
    case Moderator => if s.mod.pc.A3? then Round(s.queue.size, [], {}, {}) else r
    case Commentator(c, _) =>
      if c >= s.n then r
      else if s.com[c].pc.E2? && WindowOpen(s.mod.pc) then r.(window := r.window + [c])
      else if s.com[c].pc.D? && c in r.window && c !in r.decided then
        r.(decided := r.decided + {c},
           leaders := if s.com[c].pos == s.currentSize - 1 then r.leaders + {c} else r.leaders)
      else r
    case News(_) => r
  }

  /** The records after a run. */
  function OrderOf(s: State, actions: seq<Action>): Order
    requires Shape(s) && Run(s, actions).Some?
  {
    if actions == [] then Order([], [], [], []) else
      var before := actions[..|actions| - 1];
      RecordOrder(OrderOf(s, before), Run(s, before).value, actions[|actions| - 1])
  }

  function RoundOf(s: State, actions: seq<Action>): Round
    requires Shape(s) && Run(s, actions).Some?
  {
    if actions == [] then Round(0, [], {}, {}) else
      var before := actions[..|actions| - 1];
      RecordRound(RoundOf(s, before), Run(s, before).value, actions[|actions| - 1])
  }

  // ---- Order ------------------------------------------------------------------------

  function AllButLast(q: seq<int>): seq<int> {
    if q == [] then [] else q[..|q| - 1]
  }

  /** The commentator dequeued last has not passed its gate. */
  predicate CallPending(s: State) {
    s.mod.pc.G4? || (Calling(s.mod.pc) && Gate(Called(s)) !in s.taken)
  }

  predicate TurnRuns(s: State)
    requires Shape(s)
  {
    Calling(s.mod.pc) && 0 <= Called(s) < s.n && Speaking(s.com[Called(s)].pc)
  }

  predicate OrderOk(s: State, o: Order)
    requires Shape(s) && Consistent(s.queue)
  {
    && o.enq == o.deq + Contents(s.queue)
    && (s.mod.pc.G4? || Calling(s.mod.pc) ==> o.deq != [] && o.deq[|o.deq| - 1] == s.mod.idx)
    && o.turns == (if CallPending(s) then AllButLast(o.deq) else o.deq)
    && o.finished == (if TurnRuns(s) then AllButLast(o.turns) else o.turns)
  }

  /** The moderator's steps begin no turn; the signal it takes comes after the turn. */
  lemma ModTurnUnmoved(s: State, s': State)
    requires Inv(s) && ModStep(s) == Some(s') && Inv(s') && !s.mod.pc.G3?
    ensures s'.queue == s.queue && s'.com == s.com
    ensures CallPending(s') <==> CallPending(s)
    ensures TurnRuns(s') <==> TurnRuns(s)
    ensures s'.mod.pc.G4? || Calling(s'.mod.pc) ==> (s.mod.pc.G4? || Calling(s.mod.pc)) && s'.mod.idx == s.mod.idx
  {
    assert s'.queue == s.queue && s'.com == s.com;
    hide NewsOk, CurrOk, Mutex3Ok, Contents;
    if 0 <= Called(s) < s.n {
      TokenOf(s, Called(s));
      TokenOf(s', Called(s));
    }
  }

  lemma ModKeepsOrder(s: State, s': State, o: Order)
    requires Inv(s) && ModStep(s) == Some(s') && Inv(s') && !s.mod.pc.G3? && OrderOk(s, o)
    ensures OrderOk(s', RecordOrder(o, s, Moderator))
  {
    hide ModStep, NewsOk, CurrOk, Mutex3Ok, Contents, Tokens, CallPending, TurnRuns;
    ModTurnUnmoved(s, s');
  }

  lemma PopKeepsOrder(s: State, s': State, o: Order)
    requires Inv(s) && ModStep(s) == Some(s') && Inv(s') && s.mod.pc.G3? && OrderOk(s, o)
    ensures OrderOk(s', RecordOrder(o, s, Moderator))
  {
    PopRemovesHead(s.queue);
    assert o.deq + Contents(s.queue) == o.deq + [s'.mod.idx] + Contents(s'.queue);
    assert AllButLast(o.deq + [s'.mod.idx]) == o.deq;
  }

  /** What a call and a turn depend on, while a commentator does neither begin nor end its turn. */
  lemma TurnUnmoved(s: State, s': State, c: nat, choice: bool)
    requires Shape(s) && c < s.n && ComStep(s, c, choice) == Some(s') && !s.com[c].pc.T1? && !s.com[c].pc.S8?
    ensures Shape(s') && s'.mod == s.mod && s'.n == s.n && (CallPending(s') <==> CallPending(s))
    ensures TurnRuns(s') <==> TurnRuns(s)
  {
    ComKeepsShape(s, c, choice);
    assert Speaking(s'.com[c].pc) <==> Speaking(s.com[c].pc);
    assert forall d :: 0 <= d < s.n && d != c ==> s'.com[d] == s.com[d];
    assert Gate(Called(s)) in s'.taken <==> Gate(Called(s)) in s.taken;
  }

  lemma AnswerIsQueued(s: State, s': State, c: nat, choice: bool)
    requires Inv(s) && c < s.n && ComStep(s, c, choice) == Some(s') && s.com[c].pc.E2?
    ensures Consistent(s.queue) && Consistent(s'.queue) && Contents(s'.queue) == Contents(s.queue) + [c + 1]
  {
    TokenOf(s, c);
    RoomFor(s, c);
    PushAppends(s.queue, c + 1);
  }

  lemma PushKeepsOrder(s: State, s': State, c: nat, choice: bool, o: Order)
    requires Inv(s) && c < s.n && ComStep(s, c, choice) == Some(s') && Inv(s') && OrderOk(s, o)
    requires s.com[c].pc.E2?
    ensures OrderOk(s', RecordOrder(o, s, Commentator(c, choice)))
  {
    hide ComStep, Contents, Inv, CallPending, TurnRuns, Consistent, Shape;
    AnswerIsQueued(s, s', c, choice);
    InvShape(s);
    TurnUnmoved(s, s', c, choice);
    assert o.deq + Contents(s'.queue) == o.deq + Contents(s.queue) + [c + 1];
  }

  lemma InvShape(s: State)
    requires Inv(s)
    ensures Shape(s)
  {
  }

  lemma GateBeginsTurn(s: State, s': State, c: nat, choice: bool)
    requires Inv(s) && c < s.n && ComStep(s, c, choice) == Some(s') && s.com[c].pc.T1?
    ensures Shape(s') && s'.queue == s.queue && s'.mod == s.mod && Called(s) == c
    ensures CallPending(s) && !CallPending(s') && TurnRuns(s') && Calling(s.mod.pc)
  {
    ComKeepsShape(s, c, choice);
    TokenOf(s, c);
  }

  lemma GateKeepsOrder(s: State, s': State, c: nat, choice: bool, o: Order)
    requires Inv(s) && c < s.n && ComStep(s, c, choice) == Some(s') && s.com[c].pc.T1? && OrderOk(s, o)
    ensures Shape(s') && Consistent(s'.queue)
    ensures OrderOk(s', RecordOrder(o, s, Commentator(c, choice)))
  {
    TurnNotRunning(s, c);
    hide ComStep, Tokens, NewsOk, CurrOk, Mutex3Ok, CallPending, TurnRuns, Contents;
    GateBeginsTurn(s, s', c, choice);
    assert AllButLast(o.deq) + [c + 1] == o.deq;
    assert AllButLast(o.turns + [c + 1]) == o.turns;
  }

  lemma TurnNotRunning(s: State, c: int)
    requires Inv(s) && 0 <= c < s.n && s.com[c].pc.T1? && Gate(c) !in s.taken
    ensures !TurnRuns(s)
  {
    TokenOf(s, c);
  }

  lemma FinishEndsTurn(s: State, s': State, c: nat, choice: bool)
    requires Inv(s) && c < s.n && ComStep(s, c, choice) == Some(s') && s.com[c].pc.S8?
    ensures Shape(s') && s'.queue == s.queue && s'.mod == s.mod && Called(s) == c
    ensures TurnRuns(s) && !CallPending(s) && !CallPending(s') && !TurnRuns(s') && Calling(s.mod.pc)
  {
    ComKeepsShape(s, c, choice);
    TokenOf(s, c);
  }

  lemma FinishKeepsOrder(s: State, s': State, c: nat, choice: bool, o: Order)
    requires Inv(s) && c < s.n && ComStep(s, c, choice) == Some(s') && s.com[c].pc.S8? && OrderOk(s, o)
    ensures Shape(s') && Consistent(s'.queue)
    ensures OrderOk(s', RecordOrder(o, s, Commentator(c, choice)))
  {
    hide ComStep, Tokens, NewsOk, CurrOk, Mutex3Ok, CallPending, TurnRuns, Contents;
    FinishEndsTurn(s, s', c, choice);
    assert AllButLast(o.turns) + [c + 1] == o.turns;
  }

  lemma ComKeepsOrder(s: State, s': State, c: nat, choice: bool, o: Order)
    requires Shape(s) && Consistent(s.queue) && OrderOk(s, o)
    requires c < s.n && ComStep(s, c, choice) == Some(s')
    requires !s.com[c].pc.E2? && !s.com[c].pc.T1? && !s.com[c].pc.S8?
    ensures Shape(s') && Consistent(s'.queue)
    ensures OrderOk(s', RecordOrder(o, s, Commentator(c, choice)))
  {
    assert s'.queue == s.queue;
    hide ComStep, Contents, CallPending, TurnRuns;
    TurnUnmoved(s, s', c, choice);
  }

  lemma NewsKeepsOrder(s: State, s': State, choice: bool, o: Order)
    requires Shape(s) && Consistent(s.queue) && NewsStep(s, choice) == Some(s') && OrderOk(s, o)
    ensures Shape(s') && OrderOk(s', o)
  {
    assert s'.queue == s.queue && s'.mod == s.mod && s'.com == s.com;
    assert Gate(Called(s)) in s'.taken <==> Gate(Called(s)) in s.taken;
  }

  lemma StepKeepsOrder(s: State, a: Action, o: Order)
    requires Inv(s) && Step(s, a).Some? && OrderOk(s, o)
    ensures Inv(Step(s, a).value) && OrderOk(Step(s, a).value, RecordOrder(o, s, a))
  {
    StepKeepsInv(s, a);
    var s' := Step(s, a).value;
    match a
    case Moderator =>
      if s.mod.pc.G3? { PopKeepsOrder(s, s', o); } else { ModKeepsOrder(s, s', o); }
    case Commentator(c, choice) =>
      SpeakerIsCalled(s);
      if s.com[c].pc.E2? {
        PushKeepsOrder(s, s', c, choice, o);
      } else if s.com[c].pc.T1? {
        GateKeepsOrder(s, s', c, choice, o);
      } else if s.com[c].pc.S8? {
        FinishKeepsOrder(s, s', c, choice, o);
      } else {
        ComKeepsOrder(s, s', c, choice, o);
      }
    case News(choice) => NewsKeepsOrder(s, s', choice, o);
  }

  lemma {:induction false} RunKeepsOrder(n: nat, q: int, actions: seq<Action>)
    requires Run(Init(n, q), actions).Some?
    ensures Inv(Run(Init(n, q), actions).value)
    ensures OrderOk(Run(Init(n, q), actions).value, OrderOf(Init(n, q), actions))
    decreases |actions|
  {
    if actions == [] {
      InitInv(n, q);
    } else {
      var before := actions[..|actions| - 1];
      RunKeepsOrder(n, q, before);
      StepKeepsOrder(Run(Init(n, q), before).value, actions[|actions| - 1], OrderOf(Init(n, q), before));
    }
  }

  // ---- Rounds -------------------------------------------------------------------------

  /** Nobody of a previous round is left: before `mutex3` is taken, and after the last answer. */
  predicate BetweenRounds(pc: ModPc) {
    pc.M0? || pc.M1? || pc.MLoop? || pc.A1? || pc.A2? || pc.A3? || pc.MEnd? || pc.MDone?
  }

  /** Queued in this round's window, and not compared yet. */
  predicate Undecided(r: Round, j: int)
    requires 0 <= j < |r.window|
  {
    r.window[j] !in r.decided
  }

  /** Positions are consecutive, and a member waits for `mutex3` while the window is open. */
  predicate MemberOk(s: State, r: Round, j: int)
    requires Shape(s) && 0 <= j < |r.window|
  {
    && 0 <= r.window[j] < s.n
    && (Undecided(r, j) ==>
          var me := s.com[r.window[j]];
          && (me.pc.F1? || me.pc.F2? || me.pc.D?)
          && (HoldsMutex3(s.mod.pc) ==> me.pc.F1?)
          && me.pos == r.base + j
          && !BetweenRounds(s.mod.pc))
  }

  predicate RoundOk(s: State, r: Round)
    requires Shape(s)
  {
    && Distinct(r.window)
    && (forall j :: 0 <= j < |r.window| ==> MemberOk(s, r, j))
    && (forall c :: c in r.decided ==> c in r.window)
    && (if WindowOpen(s.mod.pc) then s.queue.size == r.base + |r.window| && r.decided == {}
        else s.currentSize == r.base + |r.window|)
    && r.leaders == Leader(r)
  }

  /** The member that queued last, once it has compared. */
  function Leader(r: Round): set<int> {
    if r.window != [] && r.window[|r.window| - 1] in r.decided then {r.window[|r.window| - 1]} else {}
  }

  /** With an empty queue nobody waits, so nobody can still have to compare. */
  lemma NobodyLeft(s: State, r: Round)
    requires Inv(s) && RoundOk(s, r) && s.mod.pc.G1? && s.queue.size == 0
    ensures forall j :: 0 <= j < |r.window| ==> !Undecided(r, j)
  {
    forall j | 0 <= j < |r.window|
      ensures !Undecided(r, j)
    {
      assert MemberOk(s, r, j);
      TokenOf(s, r.window[j]);
    }
  }

  lemma ModKeepsRound(s: State, s': State, r: Round)
    requires Shape(s) && RoundOk(s, r) && ModStep(s) == Some(s') && Shape(s')
    requires s.mod.pc.G1? && s.queue.size == 0 ==> forall j :: 0 <= j < |r.window| ==> !Undecided(r, j)
    ensures RoundOk(s', RecordRound(r, s, Moderator))
  {
    assert s'.com == s.com;
    hide InBounds;
    var r' := RecordRound(r, s, Moderator);
    forall j | 0 <= j < |r'.window|
      ensures MemberOk(s', r', j)
    {
      assert MemberOk(s, r, j);
    }
    if !s.mod.pc.A3? && !s.mod.pc.A5? {
      assert r' == r && s'.currentSize == s.currentSize;
      assert WindowOpen(s'.mod.pc) <==> WindowOpen(s.mod.pc);
    }
  }

  lemma PushKeepsRound(s: State, s': State, c: nat, choice: bool, r: Round)
    requires Inv(s) && c < s.n && ComStep(s, c, choice) == Some(s') && RoundOk(s, r)
    requires s.com[c].pc.E2?
    ensures RoundOk(s', RecordRound(r, s, Commentator(c, choice)))
  {
    var r' := RecordRound(r, s, Commentator(c, choice));
    assert s'.mod == s.mod && s'.currentSize == s.currentSize;
    forall j | 0 <= j < |r.window|
      ensures MemberOk(s', r', j)
      ensures WindowOpen(s.mod.pc) ==> r.window[j] != c
    {
      assert MemberOk(s, r, j);
    }
  }

  lemma DecideKeepsRound(s: State, s': State, c: nat, choice: bool, r: Round)
    requires Inv(s) && c < s.n && ComStep(s, c, choice) == Some(s') && RoundOk(s, r)
    requires s.com[c].pc.D?
    ensures RoundOk(s', RecordRound(r, s, Commentator(c, choice)))
  {
    var r' := RecordRound(r, s, Commentator(c, choice));
    assert s'.mod == s.mod && s'.currentSize == s.currentSize && s'.queue == s.queue;
    forall j | 0 <= j < |r.window|
      ensures MemberOk(s', r', j)
    {
      assert MemberOk(s, r, j);
    }
    if c in r.window && c !in r.decided {
      var j :| 0 <= j < |r.window| && r.window[j] == c;
      assert MemberOk(s, r, j) && Undecided(r, j);
      assert s.com[c].pos == s.currentSize - 1 <==> j == |r.window| - 1;
    }
  }

  lemma ComKeepsRound(s: State, s': State, c: nat, choice: bool, r: Round)
    requires Shape(s) && Mutex3Ok(s) && RoundOk(s, r)
    requires c < s.n && ComStep(s, c, choice) == Some(s') && Shape(s')
    requires !s.com[c].pc.E2? && !s.com[c].pc.D?
    ensures RoundOk(s', RecordRound(r, s, Commentator(c, choice)))
  {
    assert s'.mod == s.mod && s'.currentSize == s.currentSize && s'.queue == s.queue;
    forall j | 0 <= j < |r.window|
      ensures MemberOk(s', r, j)
    {
      assert MemberOk(s, r, j);
    }
  }

  lemma StepKeepsRound(s: State, a: Action, r: Round)
    requires Inv(s) && Step(s, a).Some? && RoundOk(s, r)
    ensures Inv(Step(s, a).value) && RoundOk(Step(s, a).value, RecordRound(r, s, a))
  {
    StepKeepsInv(s, a);
    var s' := Step(s, a).value;
    match a
    case Moderator =>
      if s.mod.pc.G1? && s.queue.size == 0 { NobodyLeft(s, r); }
      ModKeepsRound(s, s', r);
    case Commentator(c, choice) =>
      if s.com[c].pc.E2? {
        PushKeepsRound(s, s', c, choice, r);
      } else if s.com[c].pc.D? {
        DecideKeepsRound(s, s', c, choice, r);
      } else {
        ComKeepsRound(s, s', c, choice, r);
      }
    case News(_) =>
      assert s'.queue == s.queue && s'.mod == s.mod && s'.com == s.com && s'.currentSize == s.currentSize;
      assert s'.n == s.n;
      forall j | 0 <= j < |r.window|
        ensures MemberOk(s', r, j)
      {
        assert MemberOk(s, r, j);
      }
  }

  lemma {:induction false} RunKeepsRound(n: nat, q: int, actions: seq<Action>)
    requires Run(Init(n, q), actions).Some?
    ensures Inv(Run(Init(n, q), actions).value)
    ensures RoundOk(Run(Init(n, q), actions).value, RoundOf(Init(n, q), actions))
    decreases |actions|
  {
    if actions == [] {
      InitInv(n, q);
    } else {
      var before := actions[..|actions| - 1];
      RunKeepsRound(n, q, before);
      StepKeepsRound(Run(Init(n, q), before).value, actions[|actions| - 1], RoundOf(Init(n, q), before));
    }
  }
}
