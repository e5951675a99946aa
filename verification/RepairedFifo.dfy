/** First in, first out as meant (the repaired model): what is resident, and which page
    goes. */
module RepairedFifo {
  import opened Sequences
  import opened Addresses
  import opened PagingAsWritten
  import Repaired = RepairedPaging

  /** The newest `k` members of a list. */
  function Newest(s: seq<int>, k: nat): (t: seq<int>)
    ensures |t| == if |s| <= k then |s| else k
  {
    if |s| <= k then s else s[|s| - k..]
  }

  /** The accesses that a list of the `k` pages faulted last does not hold. */
  function FaultsOf(pages: seq<int>, k: nat): seq<int> {
    if pages == [] then [] else
      var before := FaultsOf(pages[..|pages| - 1], k);
      if pages[|pages| - 1] in Newest(before, k) then before else before + [pages[|pages| - 1]]
  }

  lemma NewestAppend(s: seq<int>, k: nat, p: int)
    requires k > 0
    ensures Newest(s + [p], k) == (if |s| < k then s else Newest(s, k)[1..]) + [p]
  {
  }

  // ---- The circle of frames --------------------------------------------------------------------

  lemma ModIs(a: int, k: int, q: int, r: int)
    requires k > 0 && a == k * q + r && 0 <= r < k
    ensures a % k == r
  {
    var d := q - a / k;
    assert k * d == a % k - r;
    assert d >= 1 ==> k * (d - 1) >= 0;
    assert d <= -1 ==> k * (-d - 1) >= 0;
  }

  lemma NextFrame(n: nat, k: nat)
    requires k > 0
    ensures (n % k + 1) % k == (n + 1) % k
  {
    var q, r := n / k, n % k;
    if r + 1 < k {
      ModIs(n + 1, k, q, r + 1);
      ModIs(r + 1, k, 0, r + 1);
    } else {
      ModIs(n + 1, k, q + 1, 0);
      ModIs(r + 1, k, 1, 0);
    }
  }

  /** A frame comes up again after `k` faults and not before. */
  lemma FrameRepeats(n: nat, j: nat, k: nat)
    requires k > 0 && n <= j + k && j < n
    ensures j % k == n % k <==> n == j + k
  {
    var q, r := j / k, j % k;
    var s := r + (n - j);
    if s < k {
      ModIs(n, k, q, s);
    } else {
      ModIs(n, k, q + 1, s - k);
    }
  }

  // ---- One access --------------------------------------------------------------------------------

  /** The pages faulted last are the resident ones, each in the frame its turn gave it. */
  ghost predicate Filled(m: Repaired.Memory, faults: seq<int>)
    requires Repaired.Resident(m)
  {
    var k := |m.loaded|;
    && m.faults == |faults| && m.next == |faults| % k
    && Distinct(Newest(faults, k))
    && (forall p :: p in m.table <==> p in Newest(faults, k))
    && (forall j :: 0 <= j < |faults| && |faults| <= j + k ==> m.loaded[j % k] == faults[j])
    && (forall f :: |faults| <= f < k ==> m.loaded[f] == -1)
  }

  /** The page that goes. */
  lemma VictimOf(m: Repaired.Memory, faults: seq<int>)
    requires Repaired.Resident(m) && Filled(m, faults)
    ensures m.loaded[m.next] == if |faults| < |m.loaded| then -1 else Newest(faults, |m.loaded|)[0]
  {
    var k := |m.loaded|;
    if |faults| < k {
      ModIs(|faults|, k, 0, |faults|);
    } else {
      FrameRepeats(|faults|, |faults| - k, k);
    }
  }

  /** Frames are taken in turn, and every fault is counted. */
  lemma TakesTurns(m: Repaired.Memory, n: nat, e: Event)
    requires Repaired.Resident(m) && m.next == n % |m.loaded|
    ensures var m' := Repaired.Replace(m, Fifo, e, m.next); m'.next == (n + 1) % |m.loaded| && m'.faults == m.faults + 1
  {
    NextFrame(n, |m.loaded|);
  }

  lemma FaultLoads(m: Repaired.Memory, faults: seq<int>, page: int, loaded: seq<int>)
    requires Repaired.Resident(m) && Filled(m, faults) && loaded == m.loaded[m.next := page]
    ensures var k, faults' := |m.loaded|, faults + [page];
      && (forall j :: 0 <= j < |faults'| && |faults'| <= j + k ==> loaded[j % k] == faults'[j])
      && (forall f :: |faults'| <= f < k ==> loaded[f] == -1)
  {
    var k, n, faults' := |m.loaded|, |faults|, faults + [page];
    hide Newest;
    forall j | 0 <= j < |faults'| && |faults'| <= j + k
      ensures loaded[j % k] == faults'[j]
    {
      if j < n {
        FrameRepeats(n, j, k);
      }
    }
    forall f | |faults'| <= f < k
      ensures loaded[f] == -1
    {
      ModIs(n, k, 0, n);
    }
  }

  lemma FaultFills(m: Repaired.Memory, m': Repaired.Memory, faults: seq<int>, e: Event)
    requires Repaired.Resident(m) && Filled(m, faults) && Repaired.Resident(m')
    requires 0 <= e.page < PAGES && e.page !in m.table
    requires m' == Repaired.Replace(m, Fifo, e, m.next).(log := m'.log)
    ensures Filled(m', faults + [e.page])
  {
    var k, n := |m.loaded|, |faults|;
    VictimOf(m, faults);
    NewestAppend(faults, k, e.page);
    TakesTurns(m, n, e);
    FaultLoads(m, faults, e.page, m'.loaded);
  }

  lemma TouchFills(m: Repaired.Memory, faults: seq<int>, e: Event)
    requires Repaired.Resident(m) && Filled(m, faults) && 0 <= e.page < PAGES
    ensures var m' := Repaired.Touch(m, Fifo, e).0;
      && Repaired.Resident(m')
      && Filled(m', if e.page in Newest(faults, |m.loaded|) then faults else faults + [e.page])
  {
    Repaired.TouchKeepsResident(m, Fifo, e);
    Repaired.FoundIsResident(m, e.page);
    if e.page !in m.table {
      FaultFills(m, Repaired.Touch(m, Fifo, e).0, faults, e);
    }
  }

  // ---- Runs -----------------------------------------------------------------------------------

  lemma {:induction false} FifoFills(k: nat, events: seq<Event>)
    requires k > 0 && Events(events)
    ensures Filled(Repaired.After(k, Fifo, events), FaultsOf(PagesOf(events), k))
    decreases |events|
  {
    if events != [] {
      var n := |events| - 1;
      FifoFills(k, events[..n]);
      assert PagesOf(events)[..n] == PagesOf(events[..n]);
      TouchFills(Repaired.After(k, Fifo, events[..n]), FaultsOf(PagesOf(events[..n]), k), events[n]);
    }
  }

  /** After any trace the resident pages are the `k` pages faulted last, and `faults` counts
      all that were. */
  lemma ResidentAreFaultedLast(k: nat, events: seq<Event>, p: int)
    requires k > 0 && Events(events)
    ensures var m, faults := Repaired.After(k, Fifo, events), FaultsOf(PagesOf(events), k);
      m.faults == |faults| && (p in m.table <==> p in Newest(faults, k))
  {
    FifoFills(k, events);
  }

  /** In full memory the next to go is the one that came first. */
  lemma VictimCameFirst(k: nat, events: seq<Event>)
    requires k > 0 && Events(events) && |FaultsOf(PagesOf(events), k)| >= k
    ensures var m := Repaired.After(k, Fifo, events);
      m.loaded[Repaired.Pick(m, Fifo)] == Newest(FaultsOf(PagesOf(events), k), k)[0]
  {
    FifoFills(k, events);
    VictimOf(Repaired.After(k, Fifo, events), FaultsOf(PagesOf(events), k));
  }

  // ---- Memories of different sizes ----------------------------------------------------------------

  /** How often the accesses `more` fault when the list holds `w`. */
  function CountFaults(w: seq<int>, k: nat, more: seq<int>): nat
    requires k > 0
    decreases |more|
  {
    if more == [] then 0
    else if more[0] in w then CountFaults(w, k, more[1..])
    else 1 + CountFaults((if |w| < k then w else w[1..]) + [more[0]], k, more[1..])
  }

  lemma FaultsNext(pages: seq<int>, k: nat, p: int)
    ensures var faults := FaultsOf(pages, k);
      FaultsOf(pages + [p], k) == if p in Newest(faults, k) then faults else faults + [p]
  {
    assert (pages + [p])[..|pages|] == pages;
  }

  lemma {:induction false} FaultsAreCounted(pages: seq<int>, k: nat, more: seq<int>)
    requires k > 0
    ensures |FaultsOf(pages + more, k)| == |FaultsOf(pages, k)| + CountFaults(Newest(FaultsOf(pages, k), k), k, more)
    decreases |more|
  {
    if more == [] {
      assert pages + more == pages;
    } else {
      var p, rest := more[0], more[1..];
      FaultsNext(pages, k, p);
      NewestAppend(FaultsOf(pages, k), k, p);
      assert pages + [p] + rest == pages + more;
      hide FaultsOf, Newest;
      FaultsAreCounted(pages + [p], k, rest);
    }
  }

  lemma OneMore(w: seq<int>, k: nat, p: int, rest: seq<int>, w': seq<int>, more: seq<int>)
    requires k > 0 && more == [p] + rest
    requires w' == if p in w then w else (if |w| < k then w else w[1..]) + [p]
    ensures CountFaults(w, k, more) == CountFaults(w', k, rest) + if p in w then 0 else 1
  {
  }

  lemma NoneMore(w: seq<int>, k: nat)
    requires k > 0
    ensures CountFaults(w, k, []) == 0
  {
  }

  /** Belady's trace. */
  function Trace(): seq<int> {
    [1, 2, 3, 4, 1, 2, 5, 1, 2, 3, 4, 5]
  }

  lemma ThreeFramesLast()
    ensures CountFaults([1, 2, 5], 3, [2, 3, 4, 5]) == 2
  {
    hide CountFaults;
    OneMore([1, 2, 5], 3, 2, [3, 4, 5], [1, 2, 5], [2, 3, 4, 5]);
    OneMore([1, 2, 5], 3, 3, [4, 5], [2, 5, 3], [3, 4, 5]);
    OneMore([2, 5, 3], 3, 4, [5], [5, 3, 4], [4, 5]);
    OneMore([5, 3, 4], 3, 5, [], [5, 3, 4], [5]);
    NoneMore([5, 3, 4], 3);
  }

  lemma ThreeFramesMiddle()
    ensures CountFaults([2, 3, 4], 3, [1, 2, 5, 1, 2, 3, 4, 5]) == 5
  {
    hide CountFaults;
    OneMore([2, 3, 4], 3, 1, [2, 5, 1, 2, 3, 4, 5], [3, 4, 1], [1, 2, 5, 1, 2, 3, 4, 5]);
    OneMore([3, 4, 1], 3, 2, [5, 1, 2, 3, 4, 5], [4, 1, 2], [2, 5, 1, 2, 3, 4, 5]);
    OneMore([4, 1, 2], 3, 5, [1, 2, 3, 4, 5], [1, 2, 5], [5, 1, 2, 3, 4, 5]);
    OneMore([1, 2, 5], 3, 1, [2, 3, 4, 5], [1, 2, 5], [1, 2, 3, 4, 5]);
    ThreeFramesLast();
  }

  lemma ThreeFramesFill()
    ensures CountFaults([1, 2], 3, [3, 4, 1, 2, 5, 1, 2, 3, 4, 5]) == 7
  {
    hide CountFaults;
    OneMore([1, 2], 3, 3, [4, 1, 2, 5, 1, 2, 3, 4, 5], [1, 2, 3], [3, 4, 1, 2, 5, 1, 2, 3, 4, 5]);
    OneMore([1, 2, 3], 3, 4, [1, 2, 5, 1, 2, 3, 4, 5], [2, 3, 4], [4, 1, 2, 5, 1, 2, 3, 4, 5]);
    ThreeFramesMiddle();
  }

  lemma ThreeFrames()
    ensures CountFaults([], 3, Trace()) == 9
  {
    hide CountFaults;
    OneMore([], 3, 1, [2, 3, 4, 1, 2, 5, 1, 2, 3, 4, 5], [1], [1, 2, 3, 4, 1, 2, 5, 1, 2, 3, 4, 5]);
    OneMore([1], 3, 2, [3, 4, 1, 2, 5, 1, 2, 3, 4, 5], [1, 2], [2, 3, 4, 1, 2, 5, 1, 2, 3, 4, 5]);
    ThreeFramesFill();
  }

  lemma FourFramesLast()
    ensures CountFaults([3, 4, 5, 1], 4, [2, 3, 4, 5]) == 4
  {
    hide CountFaults;
    OneMore([3, 4, 5, 1], 4, 2, [3, 4, 5], [4, 5, 1, 2], [2, 3, 4, 5]);
    OneMore([4, 5, 1, 2], 4, 3, [4, 5], [5, 1, 2, 3], [3, 4, 5]);
    OneMore([5, 1, 2, 3], 4, 4, [5], [1, 2, 3, 4], [4, 5]);
    OneMore([1, 2, 3, 4], 4, 5, [], [2, 3, 4, 5], [5]);
    NoneMore([2, 3, 4, 5], 4);
  }

  lemma FourFramesMiddle()
    ensures CountFaults([1, 2, 3, 4], 4, [1, 2, 5, 1, 2, 3, 4, 5]) == 6
  {
    hide CountFaults;
    OneMore([1, 2, 3, 4], 4, 1, [2, 5, 1, 2, 3, 4, 5], [1, 2, 3, 4], [1, 2, 5, 1, 2, 3, 4, 5]);
    OneMore([1, 2, 3, 4], 4, 2, [5, 1, 2, 3, 4, 5], [1, 2, 3, 4], [2, 5, 1, 2, 3, 4, 5]);
    OneMore([1, 2, 3, 4], 4, 5, [1, 2, 3, 4, 5], [2, 3, 4, 5], [5, 1, 2, 3, 4, 5]);
    OneMore([2, 3, 4, 5], 4, 1, [2, 3, 4, 5], [3, 4, 5, 1], [1, 2, 3, 4, 5]);
    FourFramesLast();
  }

  lemma FourFramesFill()
    ensures CountFaults([1, 2], 4, [3, 4, 1, 2, 5, 1, 2, 3, 4, 5]) == 8
  {
    hide CountFaults;
    OneMore([1, 2], 4, 3, [4, 1, 2, 5, 1, 2, 3, 4, 5], [1, 2, 3], [3, 4, 1, 2, 5, 1, 2, 3, 4, 5]);
    OneMore([1, 2, 3], 4, 4, [1, 2, 5, 1, 2, 3, 4, 5], [1, 2, 3, 4], [4, 1, 2, 5, 1, 2, 3, 4, 5]);
    FourFramesMiddle();
  }

  lemma FourFrames()
    ensures CountFaults([], 4, Trace()) == 10
  {
    hide CountFaults;
    OneMore([], 4, 1, [2, 3, 4, 1, 2, 5, 1, 2, 3, 4, 5], [1], [1, 2, 3, 4, 1, 2, 5, 1, 2, 3, 4, 5]);
    OneMore([1], 4, 2, [3, 4, 1, 2, 5, 1, 2, 3, 4, 5], [1, 2], [2, 3, 4, 1, 2, 5, 1, 2, 3, 4, 5]);
    FourFramesFill();
  }

  lemma TraceFaults(k: nat)
    requires k > 0
    ensures |FaultsOf(Trace(), k)| == CountFaults([], k, Trace())
  {
    var t := Trace();
    hide Trace, CountFaults;
    FaultsAreCounted([], k, t);
    assert [] + t == t && FaultsOf([], k) == [];
  }

  lemma TraceIsOfPages(events: seq<Event>)
    requires PagesOf(events) == Trace()
    ensures Events(events)
  {
    forall i | 0 <= i < |events|
      ensures 0 <= events[i].page < PAGES
    {
      assert events[i].page == Trace()[i];
    }
  }

  /** Belady's anomaly: on this trace four frames fault ten times, three frames nine times. */
  lemma LargerMemoryCanFaultMore(events: seq<Event>)
    requires PagesOf(events) == Trace()
    ensures Events(events)
    ensures Repaired.After(3, Fifo, events).faults == 9 && Repaired.After(4, Fifo, events).faults == 10
  {
    hide *;
    TraceIsOfPages(events);
    TraceFaults(3);
    TraceFaults(4);
    ThreeFrames();
    FourFrames();
    ResidentAreFaultedLast(3, events, 0);
    ResidentAreFaultedLast(4, events, 0);
  }
}
