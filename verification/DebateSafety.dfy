/** The main results about the debate: what holds after every interleaving. */
module DebateSafety {
  import opened Wrappers
  import opened RingQueue
  import opened Sequences
  import opened Debate
  import opened DebateInvariant
  import opened DebateHistory

  lemma SpeakerIsLastDequeued(s: State, o: Order, c: int)
    requires Inv(s) && OrderOk(s, o) && 0 <= c < s.n && Speaking(s.com[c].pc)
    ensures s.mod.idx == c + 1 && o.deq != [] && o.deq[|o.deq| - 1] == c + 1
  {
    hide Tokens, NewsOk, Mutex3Ok, CurrOk, Speaking, CallPending, TurnRuns;
    SpeakerIsCalled(s);
  }

  /** Mutual exclusion of turns: the one commentator past its gate is the one dequeued
      last.  Nothing here uses `mutex2`. */
  lemma OneSpeaker(n: nat, q: int, actions: seq<Action>, s: State, c: int, d: int)
    requires Run(Init(n, q), actions) == Some(s)
    requires 0 <= c < n && 0 <= d < n && Speaking(s.com[c].pc) && Speaking(s.com[d].pc)
    ensures c == d
    ensures var deq := OrderOf(Init(n, q), actions).deq; deq != [] && deq[|deq| - 1] == c + 1
  {
    hide Run, OrderOf, OrderOk, Inv, Speaking;
    RunKeepsOrder(n, q, actions);
    SpeakerIsLastDequeued(s, OrderOf(Init(n, q), actions), c);
    SpeakerIsLastDequeued(s, OrderOf(Init(n, q), actions), d);
  }

  function WaitingIds(s: State): set<int>
    requires Shape(s)
  {
    set x | x in Ids(s.n) && Waiting(s.com[x - 1].pc)
  }

  lemma QueuedIsWaiting(s: State, x: int)
    requires Shape(s) && QueueOk(s) && Tokens(s) && x in Contents(s.queue)
    ensures 1 <= x <= s.n && Waiting(s.com[x - 1].pc)
  {
    TokenOf(s, x - 1);
  }

  lemma QueueIsBounded(s: State)
    requires Shape(s) && QueueOk(s) && Tokens(s)
    ensures s.queue.size <= |WaitingIds(s)|
  {
    var q := Contents(s.queue);
    forall i | 0 <= i < |q|
      ensures q[i] in WaitingIds(s)
    {
      QueuedIsWaiting(s, q[i]);
    }
    DistinctFits(q, WaitingIds(s));
  }

  lemma EnqueuerFindsRoom(s: State, c: int)
    requires Shape(s) && QueueOk(s) && Tokens(s) && 0 <= c < s.n
    requires s.com[c].pc.E1? || s.com[c].pc.E2?
    ensures s.queue.size < s.n
  {
    TokenOf(s, c);
    RoomFor(s, c);
  }

  /** The queue never overflows, although `enqueue` checks and updates separately: the
      check never finds it full, the update always finds a free slot, nobody is queued
      twice, and at most the waiting commentators are queued. */
  lemma QueueNeverOverflows(n: nat, q: int, actions: seq<Action>, s: State)
    requires Run(Init(n, q), actions) == Some(s)
    ensures Consistent(s.queue) && Distinct(Contents(s.queue))
    ensures forall c :: 0 <= c < n && (s.com[c].pc.E1? || s.com[c].pc.E2?) ==> s.queue.size < n
    ensures forall x :: x in Contents(s.queue) ==> 1 <= x <= n && Waiting(s.com[x - 1].pc)
    ensures s.queue.size <= |WaitingIds(s)|
  {
    RunKeepsInv(n, q, actions);
    forall c | 0 <= c < n && (s.com[c].pc.E1? || s.com[c].pc.E2?)
      ensures s.queue.size < n
    {
      EnqueuerFindsRoom(s, c);
    }
    forall x | x in Contents(s.queue)
      ensures 1 <= x <= n && Waiting(s.com[x - 1].pc)
    {
      QueuedIsWaiting(s, x);
    }
    QueueIsBounded(s);
  }

  /** No hand-off is lost: whoever opens a gate or signals the end of a turn finds that
      lock taken, so no signal falls on a free lock and vanishes; and the moderator only
      takes real ids off the queue, so it never indexes outside the lock arrays. */
  lemma NoSignalLost(n: nat, q: int, actions: seq<Action>, s: State)
    requires Run(Init(n, q), actions) == Some(s)
    ensures s.mod.pc.G4? ==> 1 <= s.mod.idx <= n && Gate(s.mod.idx - 1) in s.taken
    ensures s.mod.pc.G2? || s.mod.pc.G3? ==> n > 0 && s.queue.size > 0 && 1 <= Pop(s.queue).1 <= n
    ensures forall c :: 0 <= c < n && s.com[c].pc.S8? ==> Done(c) in s.taken
    ensures !s.mod.pc.Wild?
  {
    RunKeepsInv(n, q, actions);
    if s.mod.pc.G4? {
      TokenOf(s, Called(s));
    }
    if s.mod.pc.G2? || s.mod.pc.G3? {
      PopRemovesHead(s.queue);
      assert Contents(s.queue)[0] == Pop(s.queue).1;
    }
    forall c | 0 <= c < n && s.com[c].pc.S8?
      ensures Done(c) in s.taken
    {
      TokenOf(s, c);
    }
  }

  /** While breaking news is on, nobody is inside a speaking slice and the moderator is
      not asking; and two commentators are never inside a slice together. */
  lemma NewsInterruptsNobody(n: nat, q: int, actions: seq<Action>, s: State)
    requires Run(Init(n, q), actions) == Some(s)
    ensures OnAir(s.news) ==> !Asking(s.mod.pc) && forall c :: 0 <= c < n ==> !InSlice(s.com[c].pc)
    ensures Asking(s.mod.pc) ==> forall c :: 0 <= c < n ==> !InSlice(s.com[c].pc)
    ensures forall c, d :: 0 <= c < d < n ==> !(InSlice(s.com[c].pc) && InSlice(s.com[d].pc))
  {
    RunKeepsInv(n, q, actions);
    SpeakerIsCalled(s);
    forall c | 0 <= c < n && InSlice(s.com[c].pc)
      ensures SliceRuns(s) && c == Called(s)
    {
      assert Speaking(s.com[c].pc);
    }
  }

  /** `curr_com_id` is -1 or the id of the one commentator that has the turn; during a
      pause inside a slice it is that commentator's. */
  lemma CurrentIsSpeaker(n: nat, q: int, actions: seq<Action>, s: State)
    requires Run(Init(n, q), actions) == Some(s)
    ensures s.curr == -1 || (1 <= s.curr <= n && Speaking(s.com[s.curr - 1].pc))
    ensures forall c :: 0 <= c < n && s.com[c].pc.S5? ==> s.curr == c + 1
  {
    RunKeepsInv(n, q, actions);
  }

  /** First come, first served: the ids queued are the ids taken off followed by the queue;
      turns start and end in that order, each lagging by at most one; and when the moderator
      holds no commentator, every turn it called has been taken and finished. */
  lemma AnswersInOrder(n: nat, q: int, actions: seq<Action>, s: State)
    requires Run(Init(n, q), actions) == Some(s)
    ensures Consistent(s.queue)
    ensures var o := OrderOf(Init(n, q), actions);
      && o.enq == o.deq + Contents(s.queue)
      && (o.turns == o.deq || o.turns == AllButLast(o.deq))
      && (o.finished == o.turns || o.finished == AllButLast(o.turns))
      && (!s.mod.pc.G4? && !Calling(s.mod.pc) ==> o.finished == o.turns == o.deq)
  {
    RunKeepsOrder(n, q, actions);
  }

  /** The commentators that queue while the moderator is between `lock(mutex3)` and
      `getSize`: their positions follow each other from the length it found; from then on
      `currentSize` counts exactly up to the last of them, until all have compared. */
  lemma PositionsAreConsecutive(n: nat, q: int, actions: seq<Action>, s: State, j: int)
    requires Run(Init(n, q), actions) == Some(s)
    requires 0 <= j < |RoundOf(Init(n, q), actions).window|
    ensures var r := RoundOf(Init(n, q), actions);
      0 <= r.window[j] < n && (Undecided(r, j) ==>
        && s.com[r.window[j]].pos == r.base + j
        && (!WindowOpen(s.mod.pc) ==> s.currentSize == r.base + |r.window|)
        && !BetweenRounds(s.mod.pc))
  {
    RunKeepsRound(n, q, actions);
    assert MemberOk(s, RoundOf(Init(n, q), actions), j);
  }

  /** Exactly one of them, the last, leaves by line 161 and wakes the moderator: at most
      that one at any time, and exactly that one once the round is over. */
  lemma OneLeaderPerRound(n: nat, q: int, actions: seq<Action>, s: State)
    requires Run(Init(n, q), actions) == Some(s)
    ensures var r := RoundOf(Init(n, q), actions);
      && (forall c :: c in r.leaders ==> r.window != [] && c == r.window[|r.window| - 1])
      && (BetweenRounds(s.mod.pc) ==>
            && (forall c :: c in r.decided <==> c in r.window)
            && r.leaders == if r.window == [] then {} else {r.window[|r.window| - 1]})
  {
    RunKeepsRound(n, q, actions);
    var r := RoundOf(Init(n, q), actions);
    forall j | 0 <= j < |r.window|
      ensures BetweenRounds(s.mod.pc) ==> r.window[j] in r.decided
    {
      assert MemberOk(s, r, j);
    }
  }
}
