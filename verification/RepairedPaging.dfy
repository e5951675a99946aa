/** Page replacement as prj3/part2.c means it, which is NOT what its code does (see
    PagingAsWritten).  The repairs: a fault drops the victim's page-table entry and its
    buffer entries, copies the new page in, uses every frame, and least recently used
    takes the smallest time stamp.  The number of frames is a parameter. */
module RepairedPaging {
  import opened Addresses
  import opened TlbModel
  import opened PW = PagingAsWritten

  /** `loaded[f]` is the page copied into frame `f`, -1 for none. */
  datatype Memory = Memory(
    log: seq<Entry>, table: map<int, int>, loaded: seq<int>, stamps: seq<int>,
    next: nat, used: nat, faults: nat)

  function Empty(k: nat): Memory {
    Memory([], map[], seq(k, _ => -1), seq(k, _ => 0), 0, 0, 0)
  }

  /** The index of the smallest of the first `n` values. */
  function FirstMin(s: seq<int>, n: nat): (r: nat)
    requires 0 < n <= |s|
    ensures r < n && forall i :: 0 <= i < n ==> s[r] <= s[i]
  {
    if n == 1 then 0 else
      var r := FirstMin(s, n - 1);
      if s[n - 1] < s[r] then n - 1 else r
  }

  /** The frame a new page is put into. */
  function Pick(m: Memory, policy: Policy): int
    requires |m.loaded| == |m.stamps| > 0
  {
    match policy
    case Fifo => m.next
    case Lru => if m.used < |m.loaded| then m.used else FirstMin(m.stamps, |m.stamps|)
  }

  /** Dropped entries keep their slot but match no page. */
  function Drop(log: seq<Entry>, page: int): (log': seq<Entry>)
    ensures |log'| == |log|
  {
    seq(|log|, j requires 0 <= j < |log| => if log[j].logical == page then Entry(-1, -1) else log[j])
  }

  /** The buffer, the page table and the frames describe one mapping, without two pages in
      one frame. */
  predicate Resident(m: Memory) {
    && |m.loaded| == |m.stamps| > 0 && m.next < |m.loaded| && m.used <= |m.loaded|
    && (forall p :: p in m.table ==> 0 <= p < PAGES && 0 <= m.table[p] < |m.loaded| && m.loaded[m.table[p]] == p)
    && (forall f :: 0 <= f < |m.loaded| && m.loaded[f] != -1 ==> m.loaded[f] in m.table && m.table[m.loaded[f]] == f)
    && (forall j :: 0 <= j < |m.log| && m.log[j].logical != -1 ==>
          m.log[j].logical in m.table && m.table[m.log[j].logical] == m.log[j].physical)
  }

  /** Bring a page in, in place of whatever its frame holds. */
  function Replace(m: Memory, policy: Policy, e: Event, f: int): Memory
    requires 0 <= f < |m.loaded| == |m.stamps|
  {
    var victim := m.loaded[f];
    Memory(Drop(m.log, victim), (m.table - {victim})[e.page := f],
           m.loaded[f := e.page], m.stamps[f := e.now],
           if policy.Fifo? then (m.next + 1) % |m.loaded| else m.next,
           if m.used < |m.loaded| then m.used + 1 else m.used, m.faults + 1)
  }

  /** One access. */
  function Touch(m: Memory, policy: Policy, e: Event): (r: (Memory, int))
    requires Resident(m) && 0 <= e.page < PAGES
  {
    FoundIsResident(m, e.page);
    var found := Find(Window(m.log), e.page);
    if found != -1 then (m.(stamps := m.stamps[found := e.now]), found)
    else if e.page in m.table then
      var f := m.table[e.page];
      (m.(stamps := m.stamps[f := e.now], log := m.log + [Entry(e.page, f)]), f)
    else
      var f := Pick(m, policy);
      var m' := Replace(m, policy, e, f);
      (m'.(log := m'.log + [Entry(e.page, f)]), f)
  }

  lemma FoundIsResident(m: Memory, page: int)
    requires Resident(m) && 0 <= page < PAGES
    ensures var found := Find(Window(m.log), page);
      found != -1 ==> page in m.table && found == m.table[page]
  {
    var _ := FindWitness(Window(m.log), page);
  }

  lemma ReplaceKeepsResident(m: Memory, policy: Policy, e: Event, f: int)
    requires Resident(m) && 0 <= e.page < PAGES && e.page !in m.table && 0 <= f < |m.loaded|
    ensures Resident(Replace(m, policy, e, f)) && Replace(m, policy, e, f).table[e.page] == f
  {
    var m', victim := Replace(m, policy, e, f), m.loaded[f];
    forall j | 0 <= j < |m'.log| && m'.log[j].logical != -1
      ensures m'.log[j].logical in m'.table && m'.table[m'.log[j].logical] == m'.log[j].physical
    {
      assert m'.log[j] == m.log[j] && m.log[j].logical != victim;
    }
  }

  /** Every access keeps memory consistent, and is served by the frame that holds its page. */
  lemma TouchKeepsResident(m: Memory, policy: Policy, e: Event)
    requires Resident(m) && 0 <= e.page < PAGES
    ensures var (m', f) := Touch(m, policy, e);
      Resident(m') && |m'.loaded| == |m.loaded| && 0 <= f < |m'.loaded| && m'.loaded[f] == e.page
  {
    FoundIsResident(m, e.page);
    if e.page !in m.table {
      ReplaceKeepsResident(m, policy, e, Pick(m, policy));
    }
  }

  /** The page just accessed is in the buffer, with its frame, and only its stamp, or a victim's
      frame, has changed. */
  lemma TouchIsBuffered(m: Memory, policy: Policy, e: Event)
    requires Resident(m) && 0 <= e.page < PAGES
    ensures var (m', f) := Touch(m, policy, e);
      && Find(Window(m'.log), e.page) == f
      && 0 <= f < |m.stamps| && m'.stamps == m.stamps[f := e.now]
  {
    FoundIsResident(m, e.page);
    var (m', f) := Touch(m, policy, e);
    if Find(Window(m.log), e.page) == -1 {
      assert m'.log[|m'.log| - 1] == Entry(e.page, f);
      assert Window(m'.log)[|Window(m'.log)| - 1] == Entry(e.page, f);
    }
  }

  // ---- Runs ----------------------------------------------------------------------------------

  function After(k: nat, policy: Policy, events: seq<Event>): (m: Memory)
    requires k > 0 && Events(events)
    ensures Resident(m) && |m.loaded| == k
  {
    if events == [] then Empty(k) else
      var n := |events| - 1;
      var m := After(k, policy, events[..n]);
      TouchKeepsResident(m, policy, events[n]);
      Touch(m, policy, events[n]).0
  }

  /** The byte read for the last access of a run. */
  function LastByte(k: nat, policy: Policy, events: seq<Event>, backing: seq<int>, offset: int): int
    requires k > 0 && Events(events) && events != [] && |backing| == STORE && 0 <= offset < PAGE_SIZE
  {
    var n := |events| - 1;
    var m := After(k, policy, events[..n]);
    TouchKeepsResident(m, policy, events[n]);
    var (m', f) := Touch(m, policy, events[n]);
    backing[m'.loaded[f] * PAGE_SIZE + offset]
  }

  /** Meant replacement returns the right byte: for any number of frames, either policy and
      every trace of addresses, and whether the access hits, misses or replaces a page. */
  lemma EveryAccessReadsItsByte(k: nat, policy: Policy, before: seq<Event>, address: int, now: int, backing: seq<int>)
    requires k > 0 && Events(before) && |backing| == STORE
    ensures LastByte(k, policy, before + [Event(PageOf(address), now)], backing, OffsetOf(address)) == backing[address % STORE]
  {
    var e := Event(PageOf(address), now);
    assert (before + [e])[..|before|] == before;
    TouchKeepsResident(After(k, policy, before), policy, e);
    SplitAddress(address);
  }

  /** Resident pages are mapped injectively into the frames, and the buffer lists resident
      pages only, with their frames. */
  lemma ResidentPagesHaveOwnFrames(k: nat, policy: Policy, events: seq<Event>)
    requires k > 0 && Events(events)
    ensures var m := After(k, policy, events);
      && (forall p :: p in m.table ==> 0 <= m.table[p] < k)
      && (forall p, q :: p in m.table && q in m.table && p != q ==> m.table[p] != m.table[q])
      && (forall j :: 0 <= j < |m.log| && m.log[j].logical != -1 ==>
            m.log[j].logical in m.table && m.log[j].physical == m.table[m.log[j].logical])
  {
  }
}
