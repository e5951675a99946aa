/** The debate of prj2/main.c as a transition system.

    A moderator, `n` commentators and the breaking-news thread run in any
    interleaving.  One action is one lock, one unlock, one critical section of the
    queue, or one access to a shared global.  `unlock` always makes the lock free,
    whoever took it, as the program needs when one thread unlocks what another has
    locked.

    Commentator `c`, counted from 0 here, is the thread whose id is `c + 1`.  The locks
    `mutex[c]` and `mutex_2[c]` are `Gate(c)` and `Done(c)`. */
module Debate {
  import opened Wrappers
  import opened RingQueue

  datatype Lock = Mutex1 | Mutex2 | Mutex3 | Question | BreakingNews | Gate(c: int) | Done(c: int)

  /** Moderator: the line it is about to execute. */
  datatype ModPc =
    | M0 | M1 | MLoop                                 // moderator(): 110, 111, 112
    | A1 | A2 | A3 | A4 | A5 | A6 | A7 | A8 | A9      // ask_question(): 84-86, 90, 92-96
    | G1 | G2 | G3 | G4 | G5 | G6                     // get_answers(): 101, 102 (check, act), 103-105
    | MEnd | MDone                                    // 116, returned
    | Wild                                            // indexed mutex[] out of range

  /** Commentator: the line it is about to execute. */
  datatype ComPc =
    | CLoop | W1 | W2 | P                             // 154, wait_question(): 122-123, 156
    | E1 | E2                                         // enqueue(): check 36, act 38-43
    | F1 | F2 | D | U1 | U2 | L1 | L2                 // 128-129, 161-163, 166-167
    | T1                                              // 168: the gate
    | S1 | S2 | S3 | S4 | S5 | S6 | S7                // speak(): 135, 137, 138, 141, 144, 146, 148
    | S8                                              // 170
    | N1 | N2                                         // 172-173
    | CDone

  /** Breaking news: the line it is about to execute. */
  datatype NewsPc = B1 | B2 | B3 | B4 | BDone         // 182-183, 184, 186, 190

  datatype Mod = Mod(pc: ModPc, asked: int, idx: int)
  datatype Com = Com(pc: ComPc, round: int, pos: int)

  datatype State = State(
    n: nat, q: int, taken: set<Lock>,
    queue: Ring, currentSize: int, curr: int, running: bool,
    mod: Mod, com: seq<Com>, news: NewsPc)

  /** `choice` is the outcome of `probabilityCheck`, or of the test whether a slice of
      speaking time is left. */
  datatype Action = Moderator | Commentator(c: nat, choice: bool) | News(choice: bool)

  /** Sizes of the arrays. */
  predicate Shape(s: State) {
    |s.com| == |s.queue.list| == s.n && InBounds(s.queue)
  }

  function Init(n: nat, q: int): (s: State)
    ensures Shape(s)
  {
    var taken := (set c | 0 <= c < n :: Gate(c)) + (set c | 0 <= c < n :: Done(c));
    State(n, q, taken, Create(n), 0, -1, true,
          Mod(M0, 0, 0), seq(n, _ => Com(CLoop, 0, 0)), B1)
  }

  // ---- Lock operations ----------------------------------------------------------

  /** What a line does to the locks, and the line after it. */
  datatype LockOp<Pc> = Take(l: Lock, next: Pc) | Free(l: Lock, next: Pc) | NoLock

  function ModLock(m: Mod): LockOp<ModPc> {
    match m.pc
    case M0 => Take(Question, M1)
    case M1 => Take(Mutex2, MLoop)
    case A1 => Take(Mutex1, A2)
    case A2 => Take(BreakingNews, A3)
    case A3 => Take(Mutex3, A4)
    case A4 => Free(Question, A5)
    case A6 => Free(Mutex3, A7)
    case A7 => Take(Mutex1, A8)
    case A8 => Free(Mutex1, A9)
    case A9 => Free(BreakingNews, G1)
    case G4 => Free(Gate(m.idx - 1), G5)
    case G5 => Free(Mutex2, G6)
    case G6 => Take(Done(m.idx - 1), G1)
    case _ => NoLock
  }

  function ComLock(c: int, pc: ComPc): LockOp<ComPc> {
    match pc
    case W1 => Take(Question, W2)
    case W2 => Free(Question, P)
    case F1 => Take(Mutex3, F2)
    case F2 => Free(Mutex3, D)
    case U1 => Free(Mutex1, U2)
    case U2 => Take(Question, L1)
    case L1 => Take(Mutex1, L2)
    case L2 => Free(Mutex1, T1)
    case T1 => Take(Gate(c), S1)
    case S1 => Take(Mutex2, S2)
    case S3 => Take(BreakingNews, S4)
    case S5 => Free(BreakingNews, S2)
    case S7 => Free(Mutex2, S8)
    case S8 => Free(Done(c), CLoop)
    case N1 => Take(Mutex1, N2)
    case N2 => Free(Mutex1, CLoop)
    case _ => NoLock
  }

  function NewsLock(pc: NewsPc): LockOp<NewsPc> {
    match pc
    case B2 => Take(BreakingNews, B3)
    case B4 => Free(BreakingNews, B1)
    case _ => NoLock
  }

  // ---- Steps --------------------------------------------------------------------

  /** The moderator's lines that touch no lock. */
  function ModLocal(s: State): State
    requires Shape(s)
  {
    match s.mod.pc
    case MLoop => s.(mod := if s.mod.asked < s.q then Mod(A1, s.mod.asked + 1, s.mod.idx)
                            else s.mod.(pc := MEnd))
    case A5 => s.(mod := s.mod.(pc := A6), currentSize := s.queue.size)
    case G1 => s.(mod := s.mod.(pc := if s.queue.size == 0 then MLoop else G2))
    case G2 => s.(mod := if s.queue.size == 0 then Mod(G4, s.mod.asked, -1) else s.mod.(pc := G3))
    case G3 =>
      if s.n == 0 then s.(mod := s.mod.(pc := Wild)) else
        s.(mod := Mod(G4, s.mod.asked, Pop(s.queue).1), queue := Pop(s.queue).0)
    case MEnd => s.(mod := s.mod.(pc := MDone), running := false)
    case _ => s
  }

  /** The moderator's next step; None while the lock it needs is taken, and after its end. */
  function ModStep(s: State): Option<State>
    requires Shape(s)
  {
    if s.mod.pc.MDone? || s.mod.pc.Wild? then None
    else if (s.mod.pc.G4? || s.mod.pc.G6?) && !(1 <= s.mod.idx <= s.n) then
      Some(s.(mod := s.mod.(pc := Wild)))
    else
      match ModLock(s.mod)
      case Take(l, next) =>
        if l in s.taken then None else Some(s.(mod := s.mod.(pc := next), taken := s.taken + {l}))
      case Free(l, next) => Some(s.(mod := s.mod.(pc := next), taken := s.taken - {l}))
      case NoLock => Some(ModLocal(s))
  }

  /** A commentator's lines that touch no lock. */
  function ComLocal(s: State, c: nat, choice: bool): State
    requires Shape(s) && c < s.n
  {
    var me := s.com[c];
    match me.pc
    case CLoop => s.(com := s.com[c := if me.round < s.q then Com(W1, me.round + 1, me.pos)
                                       else me.(pc := CDone)])
    case P => s.(com := s.com[c := me.(pc := if choice then E1 else N1)])
    case E1 => s.(com := s.com[c := if s.queue.size == s.n then me.(pc := F1, pos := -1)
                                    else me.(pc := E2)])
    case E2 => s.(com := s.com[c := me.(pc := F1, pos := s.queue.size)], queue := Push(s.queue, c + 1))
    case D => s.(com := s.com[c := me.(pc := if me.pos == s.currentSize - 1 then U1 else L1)])
    case S2 => s.(com := s.com[c := me.(pc := if choice then S3 else S6)])
    case S4 => s.(com := s.com[c := me.(pc := S5)], curr := c + 1)
    case S6 => s.(com := s.com[c := me.(pc := S7)], curr := -1)
    case _ => s
  }

  function ComStep(s: State, c: nat, choice: bool): Option<State>
    requires Shape(s) && c < s.n
  {
    if s.com[c].pc.CDone? then None
    else
      match ComLock(c, s.com[c].pc)
      case Take(l, next) =>
        if l in s.taken then None
        else Some(s.(com := s.com[c := s.com[c].(pc := next)], taken := s.taken + {l}))
      case Free(l, next) =>
        Some(s.(com := s.com[c := s.com[c].(pc := next)], taken := s.taken - {l}))
      case NoLock => Some(ComLocal(s, c, choice))
  }

  function NewsStep(s: State, choice: bool): Option<State> {
    match NewsLock(s.news)
    case Take(l, next) =>
      if l in s.taken then None else Some(s.(news := next, taken := s.taken + {l}))
    case Free(l, next) => Some(s.(news := next, taken := s.taken - {l}))
    case NoLock =>
      match s.news
      case B1 => Some(s.(news := if !s.running then BDone else if choice then B2 else B1))
      case B3 => Some(s.(news := B4))
      case _ => None
  }

  /** None when the thread is blocked, has returned, or does not exist. */
  function Step(s: State, a: Action): Option<State>
    requires Shape(s)
  {
    match a
    case Moderator => ModStep(s)
    case Commentator(c, choice) => if c < s.n then ComStep(s, c, choice) else None
    case News(choice) => NewsStep(s, choice)
  }

  lemma ModKeepsShape(s: State)
    requires Shape(s) && ModStep(s).Some?
    ensures Shape(ModStep(s).value) && ModStep(s).value.n == s.n && ModStep(s).value.q == s.q
  {
  }

  lemma ComKeepsShape(s: State, c: nat, choice: bool)
    requires Shape(s) && c < s.n && ComStep(s, c, choice).Some?
    ensures var s' := ComStep(s, c, choice).value; Shape(s') && s'.n == s.n && s'.q == s.q
  {
  }

  lemma StepKeepsShape(s: State, a: Action)
    requires Shape(s) && Step(s, a).Some?
    ensures Shape(Step(s, a).value) && Step(s, a).value.n == s.n && Step(s, a).value.q == s.q
  {
    match a
    case Moderator => ModKeepsShape(s);
    case Commentator(c, choice) => ComKeepsShape(s, c, choice);
    case News(choice) =>
  }

  // ---- Runs ---------------------------------------------------------------------

  /** The state after a sequence of steps, None when one of them could not be taken. */
  function Run(s: State, actions: seq<Action>): (r: Option<State>)
    requires Shape(s)
    ensures r.Some? ==> Shape(r.value) && r.value.n == s.n && r.value.q == s.q
  {
    if actions == [] then Some(s) else
      match Run(s, actions[..|actions| - 1])
      case None => None
      case Some(s') =>
        var last := actions[|actions| - 1];
        if Step(s', last).Some? then (StepKeepsShape(s', last); Step(s', last)) else None
  }
}
