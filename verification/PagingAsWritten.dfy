/** prj3/part2.c as written: 256 frames for 1024 pages, under two policies.

    A page that has a frame keeps its page-table entry for ever: a fault in full memory
    maps the new page onto a frame and leaves the old page mapped there too, and nothing
    is ever copied in.  So the translation is a growing many-to-one map, and the buffer is
    faithful to it. */
module PagingAsWritten {
  import opened Sequences
  import opened Addresses
  import opened TlbModel

  datatype Policy = Fifo | Lru

  /** One access: a page, and the clock read while it is served. */
  datatype Event = Event(page: int, now: int)

  datatype Vm = Vm(log: seq<Entry>, table: seq<int>, stamps: seq<int>, freePage: int, freeFrame: int, faults: nat, hits: nat)

  predicate Shape(vm: Vm) {
    && |vm.table| == PAGES && |vm.stamps| == FRAMES
    && 0 <= vm.freePage < FRAMES && 0 <= vm.freeFrame < FRAMES
    && (forall p :: 0 <= p < PAGES ==> -1 <= vm.table[p] < FRAMES)
  }

  /** Every buffer entry is the page-table entry of its page. */
  predicate LogAgrees(vm: Vm)
    requires Shape(vm)
  {
    forall j :: 0 <= j < |vm.log| ==>
      0 <= vm.log[j].logical < PAGES && vm.log[j].physical == vm.table[vm.log[j].logical] != -1
  }

  /** The first index that holds the largest of the first `n` values. */
  function FirstMax(s: seq<int>, n: nat): (r: nat)
    requires 0 < n <= |s|
    ensures r < n
    ensures forall i :: 0 <= i < n ==> s[i] <= s[r]
    ensures forall i :: 0 <= i < r ==> s[i] < s[r]
  {
    if n == 1 then 0 else
      var r := FirstMax(s, n - 1);
      if s[r] < s[n - 1] then n - 1 else r
  }

  function Start(): Vm {
    Vm([], seq(PAGES, _ => -1), seq(FRAMES, _ => 0), 0, 0, 0, 0)
  }

  /** The frame for a page that has none, and the counters after it. */
  function Fault(vm: Vm, policy: Policy, e: Event): (r: (Vm, int))
    requires Shape(vm) && 0 <= e.page < PAGES
  {
    match policy
    case Fifo =>
      var f := if vm.freePage == FRAMES - 1 then 0 else vm.freePage;
      (vm.(freePage := f + 1, table := vm.table[e.page := f], faults := vm.faults + 1), f)
    case Lru =>
      var full := vm.freeFrame == FRAMES - 1;
      var f := if full then FirstMax(vm.stamps, FRAMES) else vm.freeFrame;
      (vm.(freeFrame := if full then vm.freeFrame else vm.freeFrame + 1, table := vm.table[e.page := f],
           stamps := vm.stamps[f := e.now], faults := vm.faults + 1), f)
  }

  /** Page table only. */
  function Lookup(vm: Vm, policy: Policy, e: Event): (r: (Vm, int))
    requires Shape(vm) && 0 <= e.page < PAGES
    ensures Shape(r.0) && 0 <= r.1 < FRAMES && r.0.table[e.page] == r.1
  {
    var f := vm.table[e.page];
    if f == -1 then Fault(vm, policy, e) else (vm.(stamps := vm.stamps[f := e.now]), f)
  }

  /** One turn of the translation loop. */
  function Access(vm: Vm, policy: Policy, e: Event): (r: (Vm, int))
    requires Shape(vm) && LogAgrees(vm) && 0 <= e.page < PAGES
  {
    FoundAgrees(vm, e.page);
    var found := Find(Window(vm.log), e.page);
    if found != -1 then (vm.(stamps := vm.stamps[found := e.now], hits := vm.hits + 1), found)
    else
      var (vm', f) := Lookup(vm, policy, e);
      (vm'.(log := vm'.log + [Entry(e.page, f)]), f)
  }

  lemma FoundAgrees(vm: Vm, page: int)
    requires Shape(vm) && LogAgrees(vm) && 0 <= page < PAGES
    ensures var found := Find(Window(vm.log), page); found != -1 ==> found == vm.table[page]
  {
    var _ := FindWitness(Window(vm.log), page);
  }

  /** What the buffer does not touch. */
  function WithoutTlb(vm: Vm): Vm {
    vm.(log := [], hits := 0)
  }

  lemma LookupKeepsLog(vm: Vm, policy: Policy, e: Event)
    requires Shape(vm) && LogAgrees(vm) && 0 <= e.page < PAGES
    ensures LogAgrees(Lookup(vm, policy, e).0) && Lookup(vm, policy, e).0.log == vm.log
  {
  }

  lemma LookupIgnoresTlb(vm: Vm, policy: Policy, e: Event)
    requires Shape(vm) && 0 <= e.page < PAGES
    ensures Lookup(WithoutTlb(vm), policy, e) == (WithoutTlb(Lookup(vm, policy, e).0), Lookup(vm, policy, e).1)
  {
  }

  /** One access with the buffer does what the page table alone does. */
  lemma AccessIsLookup(vm: Vm, policy: Policy, e: Event)
    requires Shape(vm) && LogAgrees(vm) && 0 <= e.page < PAGES
    ensures var (vm', f) := Access(vm, policy, e);
      && Shape(vm') && LogAgrees(vm')
      && (WithoutTlb(vm'), f) == Lookup(WithoutTlb(vm), policy, e)
  {
    FoundAgrees(vm, e.page);
    LookupKeepsLog(vm, policy, e);
    LookupIgnoresTlb(vm, policy, e);
  }

  // ---- Runs --------------------------------------------------------------------------------

  predicate Events(events: seq<Event>) {
    forall i :: 0 <= i < |events| ==> 0 <= events[i].page < PAGES
  }

  function PagesOf(events: seq<Event>): (pages: seq<int>)
    ensures |pages| == |events|
  {
    seq(|events|, i requires 0 <= i < |events| => events[i].page)
  }

  /** The state after a run and the frame of every access, with the buffer. */
  function Run(policy: Policy, events: seq<Event>): (r: (Vm, seq<int>))
    requires Events(events)
    ensures Shape(r.0) && LogAgrees(r.0) && |r.1| == |events|
  {
    if events == [] then (Start(), []) else
      var n := |events| - 1;
      var (vm, frames) := Run(policy, events[..n]);
      AccessIsLookup(vm, policy, events[n]);
      var (vm', f) := Access(vm, policy, events[n]);
      (vm', frames + [f])
  }

  /** The same run with the buffer removed. */
  function RunNoTlb(policy: Policy, events: seq<Event>): (r: (Vm, seq<int>))
    requires Events(events)
    ensures Shape(r.0) && |r.1| == |events|
  {
    if events == [] then (Start(), []) else
      var n := |events| - 1;
      var (vm, frames) := RunNoTlb(policy, events[..n]);
      var (vm', f) := Lookup(vm, policy, events[n]);
      (vm', frames + [f])
  }

  /** The buffer is invisible: under either policy, for every trace and every clock, all
      accesses go to the frames they would go to without it, and every entry it holds
      agrees with the page table. */
  lemma {:induction false} TlbIsTransparent(policy: Policy, events: seq<Event>)
    requires Events(events)
    ensures Run(policy, events).1 == RunNoTlb(policy, events).1
    ensures WithoutTlb(Run(policy, events).0) == RunNoTlb(policy, events).0
    ensures LogAgrees(Run(policy, events).0)
    decreases |events|
  {
    if events != [] {
      var n := |events| - 1;
      TlbIsTransparent(policy, events[..n]);
      AccessIsLookup(Run(policy, events[..n]).0, policy, events[n]);
    }
  }

  lemma AccessFollowsList(vm: Vm, policy: Policy, e: Event, misses: seq<int>)
    requires Shape(vm) && LogAgrees(vm) && LogIs(vm.log, misses) && 0 <= e.page < PAGES
    ensures var vm' := Access(vm, policy, e).0;
      if e.page in Window(misses) then LogIs(vm'.log, misses) && vm'.hits == vm.hits + 1
      else LogIs(vm'.log, misses + [e.page]) && vm'.hits == vm.hits
  {
    FoundIffListed(vm.log, misses, e.page);
    LookupKeepsLog(vm, policy, e);
    hide Find, Window;
    assert Lookup(vm, policy, e).0.hits == vm.hits;
  }

  lemma MissesNext(pages: seq<int>)
    requires pages != []
    ensures var before, page := Misses(pages[..|pages| - 1]), pages[|pages| - 1];
      Misses(pages) == if page in Window(before) then before else before + [page]
  {
  }

  lemma RunStep(policy: Policy, events: seq<Event>)
    requires Events(events) && events != []
    ensures var n := |events| - 1;
      && Run(policy, events).0 == Access(Run(policy, events[..n]).0, policy, events[n]).0
      && PagesOf(events)[..n] == PagesOf(events[..n]) && PagesOf(events)[n] == events[n].page
  {
    hide Access, Shape, LogAgrees;
  }

  /** The buffer refines a first-in first-out list of sixteen pages: its entries are that list's
      misses in order, and it hits on exactly the accesses on which the list does. */
  lemma {:induction false} TlbRefinesList(policy: Policy, events: seq<Event>)
    requires Events(events)
    ensures LogIs(Run(policy, events).0.log, Misses(PagesOf(events)))
    ensures Run(policy, events).0.hits == |events| - |Misses(PagesOf(events))|
    decreases |events|
  {
    if events != [] {
      var n := |events| - 1;
      TlbRefinesList(policy, events[..n]);
      RunStep(policy, events);
      hide *;
      MissesNext(PagesOf(events));
      AccessFollowsList(Run(policy, events[..n]).0, policy, events[n], Misses(PagesOf(events[..n])));
    }
  }

  // ---- Which frame a page gets ---------------------------------------------------------------

  /** After `d` distinct pages. */
  predicate Counted(vm: Vm, policy: Policy, firsts: seq<int>)
    requires Shape(vm)
  {
    && vm.faults == |firsts|
    && (forall p :: 0 <= p < PAGES ==> (vm.table[p] == -1 <==> p !in firsts))
    && (forall i :: 0 <= i < |firsts| ==> 0 <= firsts[i] < PAGES)
    && Distinct(firsts)
    && (policy.Fifo? ==>
          && vm.freePage == (if firsts == [] then 0 else (|firsts| - 1) % (FRAMES - 1) + 1)
          && forall i :: 0 <= i < |firsts| ==> vm.table[firsts[i]] == i % (FRAMES - 1))
    && (policy.Lru? ==>
          && vm.freeFrame == (if |firsts| < FRAMES - 1 then |firsts| else FRAMES - 1)
          && forall i :: 0 <= i < |firsts| && i < FRAMES - 1 ==> vm.table[firsts[i]] == i)
  }

  function Grow(firsts: seq<int>, page: int): seq<int> {
    if page in firsts then firsts else firsts + [page]
  }

  lemma FifoCounts(vm: Vm, firsts: seq<int>, e: Event)
    requires Shape(vm) && Counted(vm, Fifo, firsts) && 0 <= e.page < PAGES && e.page !in firsts
    ensures Counted(Lookup(vm, Fifo, e).0, Fifo, firsts + [e.page])
    ensures Lookup(vm, Fifo, e).0.stamps == vm.stamps
  {
    assert firsts != [] ==> (|firsts| % 255 == if vm.freePage == 255 then 0 else vm.freePage);
    var firsts' := firsts + [e.page];
    assert forall p :: p in firsts' <==> p in firsts || p == e.page;
  }

  lemma LruCounts(vm: Vm, firsts: seq<int>, e: Event)
    requires Shape(vm) && Counted(vm, Lru, firsts) && 0 <= e.page < PAGES && e.page !in firsts
    ensures Counted(Lookup(vm, Lru, e).0, Lru, firsts + [e.page])
  {
    var firsts' := firsts + [e.page];
    assert forall p :: p in firsts' <==> p in firsts || p == e.page;
  }

  lemma LookupCounts(vm: Vm, policy: Policy, firsts: seq<int>, e: Event)
    requires Shape(vm) && Counted(vm, policy, firsts) && 0 <= e.page < PAGES
    ensures Counted(Lookup(vm, policy, e).0, policy, Grow(firsts, e.page))
  {
    if e.page !in firsts {
      match policy
      case Fifo => FifoCounts(vm, firsts, e);
      case Lru => LruCounts(vm, firsts, e);
    }
  }

  lemma {:induction false} RunCounts(policy: Policy, events: seq<Event>)
    requires Events(events)
    ensures Counted(RunNoTlb(policy, events).0, policy, Firsts(PagesOf(events)))
    decreases |events|
  {
    if events != [] {
      var n := |events| - 1;
      RunCounts(policy, events[..n]);
      assert PagesOf(events)[..n] == PagesOf(events[..n]);
      LookupCounts(RunNoTlb(policy, events[..n]).0, policy, Firsts(PagesOf(events[..n])), events[n]);
    }
  }

  /** A page keeps its frame: every access so far went where the table points now. */
  lemma {:induction false} FramesAreFinal(policy: Policy, events: seq<Event>, k: int)
    requires Events(events) && 0 <= k < |events|
    ensures RunNoTlb(policy, events).1[k] == RunNoTlb(policy, events).0.table[events[k].page] != -1
    decreases |events|
  {
    var n := |events| - 1;
    if k < n {
      FramesAreFinal(policy, events[..n], k);
    }
  }

  /** Faults are the distinct pages.  Under `Fifo` the k-th of them, from 0, has frame k mod 255;
      under `Lru` the first 255 have the frames 0 to 254. */
  lemma FramesInOrderOfFirstAccess(policy: Policy, events: seq<Event>, k: int)
    requires Events(events) && 0 <= k < |events|
    ensures Run(policy, events).0.faults == |Firsts(PagesOf(events))|
    ensures events[k].page in Firsts(PagesOf(events))
    ensures var i := IndexOf(Firsts(PagesOf(events)), events[k].page);
      match policy
      case Fifo => Run(policy, events).1[k] == i % 255
      case Lru => i < 255 ==> Run(policy, events).1[k] == i
  {
    TlbIsTransparent(policy, events);
    RunCounts(policy, events);
    FramesAreFinal(policy, events, k);
    var vm, firsts, page := RunNoTlb(policy, events).0, Firsts(PagesOf(events)), events[k].page;
    assert vm.table[page] == -1 <==> page !in firsts;
    var i := IndexOf(firsts, page);
    assert vm.faults == Run(policy, events).0.faults;
  }

  // ---- The policy called least recently used --------------------------------------------------

  /** Clock readings are not negative; they need not increase. */
  predicate Readings(events: seq<Event>) {
    forall i :: 0 <= i < |events| ==> events[i].now >= 0
  }

  /** What `Lru` keeps of the frames, whatever the readings. */
  predicate FramesOk(vm: Vm)
    requires Shape(vm)
  {
    && vm.freeFrame <= FRAMES - 1 && vm.stamps[FRAMES - 1] == 0
    && (forall p :: 0 <= p < PAGES ==> vm.table[p] < vm.freeFrame)
    && (forall g :: 0 <= g < FRAMES ==> vm.stamps[g] >= 0)
  }

  /** The scan never takes the last frame: its stamp is 0, and the first of the largest wins. */
  lemma ScanLeavesLastFrame(vm: Vm)
    requires Shape(vm) && FramesOk(vm)
    ensures FirstMax(vm.stamps, FRAMES) < FRAMES - 1
  {
    assert vm.stamps[0] >= vm.stamps[FRAMES - 1];
  }

  lemma LruKeepsFrames(vm: Vm, e: Event)
    requires Shape(vm) && FramesOk(vm) && 0 <= e.page < PAGES && e.now >= 0
    ensures FramesOk(Lookup(vm, Lru, e).0) && Lookup(vm, Lru, e).1 < FRAMES - 1
  {
    ScanLeavesLastFrame(vm);
  }

  lemma {:induction false} LruRun(events: seq<Event>)
    requires Events(events) && Readings(events)
    ensures FramesOk(RunNoTlb(Lru, events).0)
    ensures forall k :: 0 <= k < |events| ==> RunNoTlb(Lru, events).1[k] < FRAMES - 1
    decreases |events|
  {
    if events != [] {
      var n := |events| - 1;
      LruRun(events[..n]);
      LruKeepsFrames(RunNoTlb(Lru, events[..n]).0, events[n]);
    }
  }

  /** Memory has 256 frames, and neither policy ever uses the last. */
  lemma LastFrameIsNeverUsed(policy: Policy, events: seq<Event>, k: int)
    requires Events(events) && 0 <= k < |events| && (policy.Lru? ==> Readings(events))
    ensures Run(policy, events).1[k] < FRAMES - 1
  {
    TlbIsTransparent(policy, events);
    match policy
    case Fifo => FramesInOrderOfFirstAccess(policy, events, k);
    case Lru => LruRun(events);
  }

  /** The clock does not run backwards; it may stand still. */
  predicate Ascending(events: seq<Event>) {
    Readings(events) && forall i, j :: 0 <= i < j < |events| ==> events[i].now <= events[j].now
  }

  /** Some access went to frame `g` at reading `t`. */
  ghost predicate UsedAt(events: seq<Event>, frames: seq<int>, g: int, t: int)
    requires |events| == |frames|
  {
    exists k :: 0 <= k < |events| && frames[k] == g && events[k].now == t
  }

  /** Each frame handed out is stamped with the reading of an access to it, none later than
      `now`; the frame of the latest access is stamped with `now`. */
  ghost predicate StampsOk(vm: Vm, events: seq<Event>, frames: seq<int>, now: int)
    requires Shape(vm) && |events| == |frames|
  {
    && (forall g :: 0 <= g < FRAMES ==> vm.stamps[g] <= now)
    && (forall g :: 0 <= g < vm.freeFrame ==> UsedAt(events, frames, g, vm.stamps[g]))
    && (frames != [] ==> 0 <= frames[|frames| - 1] < FRAMES && vm.stamps[frames[|frames| - 1]] == now)
  }

  function NowOf(events: seq<Event>): int {
    if events == [] then 0 else events[|events| - 1].now
  }

  lemma StillUsed(events: seq<Event>, frames: seq<int>, e: Event, f: int, g: int, t: int)
    requires |events| == |frames| && UsedAt(events, frames, g, t)
    ensures UsedAt(events + [e], frames + [f], g, t)
  {
    var k :| 0 <= k < |events| && frames[k] == g && events[k].now == t;
    assert (frames + [f])[k] == g && (events + [e])[k].now == t;
  }

  lemma NowUsed(events: seq<Event>, frames: seq<int>, e: Event, f: int)
    requires |events| == |frames|
    ensures UsedAt(events + [e], frames + [f], f, e.now)
  {
    var n := |events|;
    assert (frames + [f])[n] == f && (events + [e])[n].now == e.now;
  }

  lemma LruKeepsStamps(vm: Vm, events: seq<Event>, frames: seq<int>, now: int, e: Event)
    requires Shape(vm) && FramesOk(vm) && |events| == |frames| && StampsOk(vm, events, frames, now)
    requires 0 <= e.page < PAGES && 0 <= now <= e.now
    ensures StampsOk(Lookup(vm, Lru, e).0, events + [e], frames + [Lookup(vm, Lru, e).1], e.now)
  {
    var (vm', f) := Lookup(vm, Lru, e);
    assert vm'.stamps == vm.stamps[f := e.now];
    ScanLeavesLastFrame(vm);
    NowUsed(events, frames, e, f);
    forall g | 0 <= g < vm'.freeFrame
      ensures UsedAt(events + [e], frames + [f], g, vm'.stamps[g])
    {
      if g != f {
        assert g < vm.freeFrame;
        StillUsed(events, frames, e, f, g, vm.stamps[g]);
      }
    }
  }

  lemma {:induction false} LruStamps(events: seq<Event>)
    requires Events(events) && Ascending(events)
    ensures StampsOk(RunNoTlb(Lru, events).0, events, RunNoTlb(Lru, events).1, NowOf(events))
    decreases |events|
  {
    if events != [] {
      var n := |events| - 1;
      var before := events[..n];
      LruStamps(before);
      LruRun(before);
      assert before + [events[n]] == events;
      var (vm, frames) := RunNoTlb(Lru, before);
      hide Lookup, StampsOk, FramesOk, Shape;
      LruKeepsStamps(vm, before, frames, NowOf(before), events[n]);
    }
  }

  lemma LastAccess(events: seq<Event>)
    requires Events(events) && events != []
    ensures var n := |events| - 1;
      var (vm, frames) := RunNoTlb(Lru, events[..n]);
      Run(Lru, events).1[..n] == frames && Run(Lru, events).1[n] == Lookup(vm, Lru, events[n]).1
  {
    TlbIsTransparent(Lru, events);
    hide Run, Lookup;
  }

  /** In full memory the scan finds a frame used at the latest reading. */
  lemma ScanTakesLatest(vm: Vm, events: seq<Event>, frames: seq<int>, now: int, e: Event)
    requires Shape(vm) && FramesOk(vm) && |events| == |frames| > 0 && StampsOk(vm, events, frames, now)
    requires vm.freeFrame == FRAMES - 1 && 0 <= e.page < PAGES && vm.table[e.page] == -1
    ensures UsedAt(events, frames, Lookup(vm, Lru, e).1, now)
  {
    var f := FirstMax(vm.stamps, FRAMES);
    ScanLeavesLastFrame(vm);
    assert vm.stamps[f] == now;
  }

  /** Once 255 pages have come up, a page that comes up for the first time is given a frame
      that was used at the latest clock reading before it: the most recently used frame as far
      as the clock can tell, not the least. */
  lemma LruTakesLatestFrame(events: seq<Event>)
    requires Events(events) && Ascending(events) && events != []
    requires var n := |events| - 1;
      |Firsts(PagesOf(events[..n]))| >= 255 && events[n].page !in Firsts(PagesOf(events[..n]))
    ensures var n := |events| - 1;
      UsedAt(events[..n], Run(Lru, events).1[..n], Run(Lru, events).1[n], NowOf(events[..n]))
  {
    var n := |events| - 1;
    var before := events[..n];
    LastAccess(events);
    RunCounts(Lru, before);
    LruRun(before);
    LruStamps(before);
    var (vm, frames) := RunNoTlb(Lru, before);
    hide Run, RunNoTlb, Lookup, UsedAt, FramesOk, StampsOk, Ascending;
    ScanTakesLatest(vm, before, frames, NowOf(before), events[n]);
  }

  /** So if the clock has moved since all earlier accesses, it is the frame of the access just
      before. */
  lemma LruTakesMostRecentFrame(events: seq<Event>)
    requires Events(events) && Ascending(events) && |events| > 1
    requires var n := |events| - 1;
      && |Firsts(PagesOf(events[..n]))| >= 255 && events[n].page !in Firsts(PagesOf(events[..n]))
      && forall i :: 0 <= i < n - 1 ==> events[i].now < events[n - 1].now
    ensures Run(Lru, events).1[|events| - 1] == Run(Lru, events).1[|events| - 2]
  {
    var n := |events| - 1;
    LruTakesLatestFrame(events);
    var frames := Run(Lru, events).1;
    var k :| 0 <= k < n && frames[..n][k] == frames[n] && events[..n][k].now == NowOf(events[..n]);
    assert events[k].now == events[n - 1].now;
  }

  // ---- Many pages to a frame -------------------------------------------------------------------

  lemma FirstsHaveEvents(events: seq<Event>, i: int) returns (k: int)
    requires 0 <= i < |Firsts(PagesOf(events))|
    ensures 0 <= k < |events| && events[k].page == Firsts(PagesOf(events))[i]
  {
    var pages := PagesOf(events);
    FirstsAreDistinct(pages);
    assert Firsts(pages)[i] in pages;
    k :| 0 <= k < |pages| && pages[k] == Firsts(pages)[i];
  }

  /** Distinct pages were sent to distinct frames. */
  predicate OneToOne(events: seq<Event>, frames: seq<int>)
    requires |events| == |frames|
  {
    forall j, k :: 0 <= j < |events| && 0 <= k < |events| && events[j].page != events[k].page ==> frames[j] != frames[k]
  }

  lemma PageIsListed(events: seq<Event>, k: int)
    requires 0 <= k < |events|
    ensures events[k].page in Firsts(PagesOf(events))
  {
    FirstsAreDistinct(PagesOf(events));
    assert PagesOf(events)[k] in PagesOf(events);
  }

  /** The first 255 pages have the frames 0 to 254, under either policy. */
  lemma FrameOfEarly(policy: Policy, events: seq<Event>, k: int)
    requires Events(events) && 0 <= k < |events|
    requires events[k].page in Firsts(PagesOf(events)) && IndexOf(Firsts(PagesOf(events)), events[k].page) < 255
    ensures Run(policy, events).1[k] == IndexOf(Firsts(PagesOf(events)), events[k].page)
  {
    hide *;
    FramesInOrderOfFirstAccess(policy, events, k);
  }

  lemma FewPagesAreOneToOne(policy: Policy, events: seq<Event>)
    requires Events(events) && |Firsts(PagesOf(events))| <= 255
    ensures OneToOne(events, Run(policy, events).1)
  {
    hide Run, Firsts, PagesOf, IndexOf, Events;
    forall j, k | 0 <= j < |events| && 0 <= k < |events| && events[j].page != events[k].page
      ensures Run(policy, events).1[j] != Run(policy, events).1[k]
    {
      PageIsListed(events, j);
      PageIsListed(events, k);
      FrameOfEarly(policy, events, j);
      FrameOfEarly(policy, events, k);
    }
  }

  lemma FrameInRange(policy: Policy, events: seq<Event>, k: int)
    requires Events(events) && 0 <= k < |events| && (policy.Lru? ==> Readings(events))
    ensures 0 <= Run(policy, events).1[k] < 255
  {
    LastFrameIsNeverUsed(policy, events, k);
    TlbIsTransparent(policy, events);
    FramesAreFinal(policy, events, k);
  }

  lemma PlaceOf(firsts: seq<int>, i: int)
    requires Distinct(firsts) && 0 <= i < |firsts|
    ensures IndexOf(firsts, firsts[i]) == i
  {
  }

  lemma ManyPagesCollide(policy: Policy, events: seq<Event>)
    requires Events(events) && (policy.Lru? ==> Readings(events)) && |Firsts(PagesOf(events))| > 255
    ensures !OneToOne(events, Run(policy, events).1)
  {
    hide Run, Firsts, PagesOf, IndexOf, Events, Readings;
    var firsts, frames := Firsts(PagesOf(events)), Run(policy, events).1;
    FirstsAreDistinct(PagesOf(events));
    var k := FirstsHaveEvents(events, 255);
    FrameInRange(policy, events, k);
    var f := frames[k];
    var j := FirstsHaveEvents(events, f);
    PlaceOf(firsts, f);
    FrameOfEarly(policy, events, j);
    assert firsts[f] != firsts[255];
  }

  /** The translation is one-to-one if and only if at most 255 pages have come up. */
  lemma OneToOneIffFew(policy: Policy, events: seq<Event>)
    requires Events(events) && (policy.Lru? ==> Readings(events))
    ensures OneToOne(events, Run(policy, events).1) <==> |Firsts(PagesOf(events))| <= 255
  {
    if |Firsts(PagesOf(events))| <= 255 {
      FewPagesAreOneToOne(policy, events);
    } else {
      ManyPagesCollide(policy, events);
    }
  }

  // ---- The program ----------------------------------------------------------------------------

  class Simulator {
    const tlb: TlbModel.Tlb
    const pagetable: array<int>
    const physicalPageCount: array<int>
    const memory: array<int>
    const policy: Policy
    var freePage: int
    var freeFrame: int
    var pageFaults: nat
    var tlbHits: nat

    ghost function Value(): Vm
      reads this, tlb, pagetable, physicalPageCount
    {
      Vm(tlb.log, pagetable[..], physicalPageCount[..], freePage, freeFrame, pageFaults, tlbHits)
    }

    ghost predicate Valid()
      reads this, tlb, tlb.slots, pagetable, physicalPageCount, memory
    {
      && tlb.Valid() && pagetable != physicalPageCount && pagetable != memory && physicalPageCount != memory
      && pagetable.Length == PAGES && physicalPageCount.Length == FRAMES && memory.Length == FRAMES * PAGE_SIZE
      && Shape(Value()) && LogAgrees(Value())
      && forall i :: 0 <= i < memory.Length ==> memory[i] == 0
    }

    constructor (policy: Policy)
      ensures Valid() && Value() == Start() && this.policy == policy
      ensures fresh(tlb) && fresh(tlb.slots) && fresh(pagetable) && fresh(physicalPageCount) && fresh(memory)
    {
      this.policy := policy;
      tlb := new TlbModel.Tlb();
      pagetable := new int[PAGES](_ => -1);
      physicalPageCount := new int[FRAMES](_ => 0);
      memory := new int[FRAMES * PAGE_SIZE](_ => 0);
      freePage, freeFrame, pageFaults, tlbHits := 0, 0, 0, 0;
      new;
      assert Value() == Start();
    }

    /** Meant to return the frame used longest ago: it returns the first of the largest
        stamps. */
    method FindLastRecentlyUsed() returns (physicalPageIndex: int)
      requires Valid()
      ensures physicalPageIndex == FirstMax(physicalPageCount[..], FRAMES)
    {
      physicalPageIndex := 0;
      var temp := physicalPageCount[0];
      assert FirstMax(physicalPageCount[..], 1) == 0;
      var i := 0;
      while i < FRAMES
        invariant 0 <= i <= FRAMES && 0 <= physicalPageIndex < FRAMES
        invariant temp == physicalPageCount[physicalPageIndex]
        invariant physicalPageIndex == FirstMax(physicalPageCount[..], if i == 0 then 1 else i)
      {
        if temp < physicalPageCount[i] {
          temp := physicalPageCount[i];
          physicalPageIndex := i;
        }
        i := i + 1;
      }
    }

    method PageFault(e: Event) returns (frame: int)
      requires Valid() && 0 <= e.page < PAGES && pagetable[e.page] == -1
      modifies this, pagetable, physicalPageCount
      ensures Valid() && (Value(), frame) == Lookup(old(Value()), policy, e)
    {
      pageFaults := pageFaults + 1;
      if policy == Fifo {
        if freePage == FRAMES - 1 {
          freePage := 0;
        }
        frame := freePage;
        freePage := freePage + 1;
        pagetable[e.page] := frame;
      } else if freeFrame == FRAMES - 1 {
        frame := FindLastRecentlyUsed();
        pagetable[e.page] := frame;
        physicalPageCount[frame] := e.now;
      } else {
        frame := freeFrame;
        physicalPageCount[frame] := e.now;
        freeFrame := freeFrame + 1;
        pagetable[e.page] := frame;
      }
    }

    /** One turn of the loop.  The value read is 0 whatever the backing store holds,
        because no page was ever copied into memory. */
    method Step(address: int, now: int) returns (physical: int, value: int)
      requires Valid()
      modifies this, tlb, tlb.slots, pagetable, physicalPageCount
      ensures Valid()
      ensures var (vm', frame) := Access(old(Value()), policy, Event(PageOf(address), now));
        Value() == vm' && physical == frame * PAGE_SIZE + OffsetOf(address)
      ensures value == 0
    {
      var page, offset := PageOf(address), OffsetOf(address);
      var e := Event(page, now);
      FoundAgrees(Value(), page);
      AccessIsLookup(Value(), policy, e);
      var frame := tlb.Search(page);
      if frame != -1 {
        tlbHits := tlbHits + 1;
        physicalPageCount[frame] := now;
      } else {
        frame := pagetable[page];
        if frame != -1 {
          physicalPageCount[frame] := now;
        } else {
          frame := PageFault(e);
        }
        tlb.Add(page, frame);
      }
      physical := frame * PAGE_SIZE + offset;
      value := memory[physical];
    }

    /** The translation loop over addresses and clock readings. */
    method Translate(trace: seq<(int, int)>) returns (physical: seq<int>)
      requires Valid() && Value() == Start()
      modifies this, tlb, tlb.slots, pagetable, physicalPageCount
      ensures Valid() && Value() == Run(policy, EventsOf(trace)).0
      ensures |physical| == |trace| && forall k :: 0 <= k < |trace| ==>
        physical[k] == Run(policy, EventsOf(trace)).1[k] * PAGE_SIZE + OffsetOf(trace[k].0)
    {
      hide Access;
      physical := [];
      var n := 0;
      while n < |trace|
        invariant 0 <= n <= |trace| && Valid() && Value() == Run(policy, EventsOf(trace[..n])).0
        invariant |physical| == n && forall k :: 0 <= k < n ==>
          physical[k] == Run(policy, EventsOf(trace[..n])).1[k] * PAGE_SIZE + OffsetOf(trace[k].0)
      {
        RunNext(policy, trace[..n], trace[n]);
        assert trace[..n] + [trace[n]] == trace[..n + 1];
        var a, _ := Step(trace[n].0, trace[n].1);
        physical := physical + [a];
        n := n + 1;
      }
      assert trace[..n] == trace;
    }
  }

  function EventsOf(trace: seq<(int, int)>): (events: seq<Event>)
    ensures Events(events) && |events| == |trace|
  {
    seq(|trace|, i requires 0 <= i < |trace| => Event(PageOf(trace[i].0), trace[i].1))
  }

  lemma EventAt(trace: seq<(int, int)>, k: nat)
    requires k < |trace|
    ensures EventsOf(trace)[k].page * 1024 + trace[k].0 % 1024 == trace[k].0 % 0x10_0000
    ensures EventsOf(trace)[k].now == trace[k].1
  {
    SplitAddress(trace[k].0);
  }

  lemma RunNext(policy: Policy, before: seq<(int, int)>, a: (int, int))
    ensures var (vm, frames) := Run(policy, EventsOf(before));
      var (vm', f) := Access(vm, policy, Event(PageOf(a.0), a.1));
      Run(policy, EventsOf(before + [a])) == (vm', frames + [f])
  {
    var events := EventsOf(before + [a]);
    assert events[..|before|] == EventsOf(before);
  }
}
