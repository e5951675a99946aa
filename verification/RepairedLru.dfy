/** Least recently used as meant (the repaired model): what is resident, and why more
    memory never hurts. */
module RepairedLru {
  import opened Sequences
  import opened Addresses
  import opened PW = PagingAsWritten
  import opened RepairedPaging

  /** The distinct pages of a trace, most recently used first. */
  function Recency(pages: seq<int>): seq<int> {
    if pages == [] then [] else
      [pages[|pages| - 1]] + Without(Recency(pages[..|pages| - 1]), pages[|pages| - 1])
  }

  function Without(s: seq<int>, p: int): seq<int> {
    if p in s then Cut(s, IndexOf(s, p)) else s
  }

  function Top(s: seq<int>, k: nat): (t: seq<int>)
    ensures |t| == if |s| <= k then |s| else k
  {
    if |s| <= k then s else s[..k]
  }

  /** The most recently used pages, kept to `k`, after one more access. */
  function Promote(t: seq<int>, k: nat, p: int): seq<int>
    requires k > 0
  {
    [p] + (if p in t then Without(t, p) else Top(t, k - 1))
  }

  lemma {:induction false} RecencyIsDistinct(pages: seq<int>)
    ensures Distinct(Recency(pages))
    ensures forall p :: p in Recency(pages) <==> p in pages
    decreases |pages|
  {
    if pages != [] {
      var n := |pages| - 1;
      RecencyIsDistinct(pages[..n]);
      WithoutDrops(Recency(pages[..n]), pages[n]);
      assert pages == pages[..n] + [pages[n]];
    }
  }

  lemma WithoutDrops(s: seq<int>, p: int)
    requires Distinct(s)
    ensures Distinct(Without(s, p)) && p !in Without(s, p)
    ensures forall x :: x in Without(s, p) <==> x in s && x != p
  {
    if p in s {
      var i := IndexOf(s, p);
      assert s == s[..i] + [p] + s[i + 1..];
    }
  }

  lemma TopOfFront(s: seq<int>, k: nat, p: int)
    requires k > 0
    ensures Top([p] + s, k) == [p] + Top(s, k - 1)
  {
  }

  lemma WithoutPlace(s: seq<int>, p: int, i: int)
    requires 0 <= i < |s| && s[i] == p && forall j :: 0 <= j < i ==> s[j] != p
    ensures Without(s, p) == Cut(s, i)
  {
    assert p in s && IndexOf(s, p) == i;
  }

  /** Keeping only the top is closed under accesses: what lies deeper never comes back by
      itself. */
  lemma TopPromotes(s: seq<int>, k: nat, p: int)
    requires k > 0
    ensures Top([p] + Without(s, p), k) == Promote(Top(s, k), k, p)
  {
    TopOfFront(Without(s, p), k, p);
    var t := Top(s, k);
    assert forall j :: 0 <= j < |t| ==> t[j] == s[j];
    if p in t {
      var i := IndexOf(t, p);
      hide IndexOf, Without;
      WithoutPlace(t, p, i);
      WithoutPlace(s, p, i);
    } else if p in s {
      var i := IndexOf(s, p);
      hide IndexOf, Without;
      assert |t| <= i;
      WithoutPlace(s, p, i);
    }
  }

  /** The clock reads strictly increasing positive values. */
  predicate Ticks(events: seq<Event>) {
    && (forall i :: 0 <= i < |events| ==> events[i].now > 0)
    && (forall i, j :: 0 <= i < j < |events| ==> events[i].now < events[j].now)
  }

  // ---- One access of the frames -----------------------------------------------------------------

  predicate Decreasing(s: seq<int>) {
    forall i, j :: 0 <= i < j < |s| ==> s[j] < s[i]
  }

  function StampOf(m: Memory, p: int): int
    requires Resident(m)
  {
    if p in m.table then m.stamps[m.table[p]] else -1
  }

  function Stamps(m: Memory, t: seq<int>): (s: seq<int>)
    requires Resident(m)
    ensures |s| == |t|
  {
    seq(|t|, j requires 0 <= j < |t| => StampOf(m, t[j]))
  }

  /** The resident pages are those of `t`, their frames stamped in the order of `t`. */
  ghost predicate Ranked(m: Memory, t: seq<int>, now: int)
    requires Resident(m)
  {
    && Distinct(t) && |t| == m.used
    && (forall p :: p in m.table <==> p in t)
    && Decreasing(Stamps(m, t))
    && FramesOk(m, now)
  }

  predicate FramesOk(m: Memory, now: int)
    requires Resident(m)
  {
    && (forall f :: 0 <= f < |m.stamps| ==> m.stamps[f] <= now)
    && (forall f :: 0 <= f < |m.loaded| ==> (m.loaded[f] == -1 <==> m.used <= f))
  }

  lemma StampsAreOld(m: Memory, t: seq<int>, now: int, later: int)
    requires Resident(m) && FramesOk(m, now) && now < later && forall j :: 0 <= j < |t| ==> t[j] in m.table
    ensures forall j :: 0 <= j < |t| ==> StampOf(m, t[j]) < later
  {
  }

  /** Stamping one page anew puts it in front and leaves the order of the others. */
  lemma StampsPromote(m: Memory, m': Memory, t: seq<int>, rest: seq<int>, shift: seq<int>, p: int, now: int)
    requires Resident(m) && Resident(m') && Decreasing(Stamps(m, t))
    requires forall j :: 0 <= j < |t| ==> StampOf(m, t[j]) < now
    requires StampOf(m', p) == now && forall x :: x in rest ==> StampOf(m', x) == StampOf(m, x)
    requires |shift| == |rest| && forall j :: 0 <= j < |rest| ==> 0 <= shift[j] < |t| && rest[j] == t[shift[j]]
    requires forall i, j :: 0 <= i < j < |rest| ==> shift[i] < shift[j]
    ensures Decreasing(Stamps(m', [p] + rest))
  {
    forall i, j | 0 <= i < j < |rest| + 1
      ensures Stamps(m', [p] + rest)[j] < Stamps(m', [p] + rest)[i]
    {
      assert rest[j - 1] in rest;
      assert Stamps(m', [p] + rest)[j] == Stamps(m, t)[shift[j - 1]];
      if i > 0 {
        assert rest[i - 1] in rest;
        assert Stamps(m', [p] + rest)[i] == Stamps(m, t)[shift[i - 1]];
      }
    }
  }

  lemma HitKeepsOthers(m: Memory, m': Memory, e: Event, now: int)
    requires Resident(m) && Resident(m') && e.page in m.table && FramesOk(m, now) && now < e.now
    requires m' == m.(stamps := m.stamps[m.table[e.page] := e.now], log := m'.log)
    ensures FramesOk(m', e.now) && StampOf(m', e.page) == e.now
    ensures forall x :: x != e.page ==> StampOf(m', x) == StampOf(m, x)
  {
  }

  /** Where the pages of the shorter list stood. */
  lemma WithoutShifts(t: seq<int>, p: int) returns (shift: seq<int>)
    requires p in t
    ensures var rest := Without(t, p);
      && |rest| == |t| - 1 == |shift|
      && (forall j :: 0 <= j < |rest| ==> 0 <= shift[j] < |t| && rest[j] == t[shift[j]])
      && (forall i, j :: 0 <= i < j < |rest| ==> shift[i] < shift[j])
  {
    var i := IndexOf(t, p);
    shift := seq(|t| - 1, j => if j < i then j else j + 1);
  }

  lemma HitOrders(m: Memory, m': Memory, t: seq<int>, now: int, e: Event)
    requires Resident(m) && Ranked(m, t, now) && now < e.now && e.page in m.table && Resident(m')
    requires m' == m.(stamps := m.stamps[m.table[e.page] := e.now], log := m'.log)
    ensures FramesOk(m', e.now) && Decreasing(Stamps(m', [e.page] + Without(t, e.page)))
  {
    WithoutDrops(t, e.page);
    StampsAreOld(m, t, now, e.now);
    HitKeepsOthers(m, m', e, now);
    var shift := WithoutShifts(t, e.page);
    hide Resident, FramesOk, StampOf, Stamps, Without, Decreasing, Distinct;
    StampsPromote(m, m', t, Without(t, e.page), shift, e.page, e.now);
  }

  lemma HitPromotes(m: Memory, m': Memory, t: seq<int>, now: int, e: Event)
    requires Resident(m) && Ranked(m, t, now) && now < e.now && e.page in m.table && Resident(m')
    requires m' == m.(stamps := m.stamps[m.table[e.page] := e.now], log := m'.log)
    ensures Ranked(m', [e.page] + Without(t, e.page), e.now)
  {
    HitOrders(m, m', t, now, e);
    WithoutDrops(t, e.page);
    var _ := WithoutShifts(t, e.page);
    hide Resident, FramesOk, Stamps, Without, Decreasing;
  }

  /** In full memory the smallest stamp belongs to the page used longest ago. */
  lemma VictimIsLast(m: Memory, t: seq<int>, now: int)
    requires Resident(m) && Ranked(m, t, now) && m.used == |m.loaded|
    ensures m.loaded[FirstMin(m.stamps, |m.stamps|)] == t[|t| - 1]
  {
    var f := FirstMin(m.stamps, |m.stamps|);
    assert m.loaded[f] != -1 && m.loaded[f] in t;
    var j :| 0 <= j < |t| && t[j] == m.loaded[f];
    var last := |t| - 1;
    assert t[last] in m.table;
    assert Stamps(m, t)[j] == m.stamps[f] <= Stamps(m, t)[last];
  }

  /** The pages that stay when one comes in. */
  lemma Incoming(t: seq<int>, k: nat, p: int)
    requires k > 0 && Distinct(t) && |t| <= k && p !in t
    ensures Distinct([p] + Top(t, k - 1))
    ensures forall x :: x in Top(t, k - 1) <==> x in t && (|t| == k ==> x != t[k - 1])
  {
    if |t| == k {
      assert t == t[..k - 1] + [t[k - 1]];
    }
  }

  lemma FaultKeepsOthers(m: Memory, m': Memory, e: Event, f: int, rest: seq<int>)
    requires Resident(m) && Resident(m') && 0 <= f < |m.loaded| && e.page !in m.table
    requires m'.table == (m.table - {m.loaded[f]})[e.page := f] && m'.stamps == m.stamps[f := e.now]
    requires forall x :: x in rest <==> x in m.table && x != m.loaded[f]
    ensures forall p :: p in m'.table <==> p in [e.page] + rest
    ensures StampOf(m', e.page) == e.now && forall x :: x in rest ==> StampOf(m', x) == StampOf(m, x)
  {
  }

  /** The victim is the last page of `t` in full memory, none otherwise. */
  lemma FaultFrame(m: Memory, t: seq<int>, now: int, e: Event)
    requires Resident(m) && Ranked(m, t, now) && now < e.now && 0 <= e.page < PAGES && e.page !in m.table
    ensures var k, f := |m.loaded|, Pick(m, Lru);
      var m' := Replace(m, Lru, e, f);
      && 0 <= f < k && Resident(m') && FramesOk(m', e.now)
      && |t| <= k && m'.used == (if |t| < k then |t| + 1 else k)
      && (forall x :: x in m.table && x != m.loaded[f] <==> x in t && (|t| == k ==> x != t[k - 1]))
  {
    ReplaceKeepsResident(m, Lru, e, Pick(m, Lru));
    if m.used == |m.loaded| {
      VictimIsLast(m, t, now);
    }
  }

  lemma FaultPromotes(m: Memory, t: seq<int>, now: int, e: Event)
    requires Resident(m) && Ranked(m, t, now) && now < e.now && 0 <= e.page < PAGES && e.page !in m.table
    ensures var m' := Replace(m, Lru, e, Pick(m, Lru));
      Resident(m') && Ranked(m', [e.page] + Top(t, |m.loaded| - 1), e.now)
  {
    var k, f := |m.loaded|, Pick(m, Lru);
    var m', rest := Replace(m, Lru, e, f), Top(t, k - 1);
    FaultFrame(m, t, now, e);
    Incoming(t, k, e.page);
    StampsAreOld(m, t, now, e.now);
    FaultKeepsOthers(m, m', e, f, rest);
    hide Resident, FramesOk, StampOf, Replace, Pick;
    StampsPromote(m, m', t, rest, seq(|rest|, j => j), e.page, e.now);
  }

  /** The buffer does not matter to the frames. */
  lemma TouchHit(m: Memory, e: Event)
    requires Resident(m) && 0 <= e.page < PAGES && e.page in m.table
    ensures var m' := Touch(m, Lru, e).0;
      m' == m.(stamps := m.stamps[m.table[e.page] := e.now], log := m'.log)
  {
    FoundIsResident(m, e.page);
  }

  lemma TouchMiss(m: Memory, e: Event)
    requires Resident(m) && 0 <= e.page < PAGES && e.page !in m.table
    ensures var m' := Touch(m, Lru, e).0;
      m' == Replace(m, Lru, e, Pick(m, Lru)).(log := m'.log)
  {
    FoundIsResident(m, e.page);
  }

  lemma RankedIgnoresLog(m: Memory, m': Memory, t: seq<int>, now: int)
    requires Resident(m) && Resident(m') && m' == m.(log := m'.log) && Ranked(m, t, now)
    ensures Ranked(m', t, now)
  {
    assert Stamps(m', t) == Stamps(m, t);
  }

  /** One access moves its page to the front and lets the last one go. */
  lemma TouchPromotes(m: Memory, t: seq<int>, now: int, e: Event)
    requires Resident(m) && Ranked(m, t, now) && now < e.now && 0 <= e.page < PAGES
    ensures var m' := Touch(m, Lru, e).0;
      Resident(m') && Ranked(m', Promote(t, |m.loaded|, e.page), e.now)
    ensures Touch(m, Lru, e).0.faults == m.faults + if e.page in t then 0 else 1
  {
    TouchKeepsResident(m, Lru, e);
    if e.page in m.table {
      TouchHit(m, e);
      HitPromotes(m, Touch(m, Lru, e).0, t, now, e);
    } else {
      TouchMiss(m, e);
      FaultPromotes(m, t, now, e);
      RankedIgnoresLog(Replace(m, Lru, e, Pick(m, Lru)), Touch(m, Lru, e).0,
                       [e.page] + Top(t, |m.loaded| - 1), e.now);
    }
  }

  // ---- Runs -----------------------------------------------------------------------------------

  lemma {:induction false} LruKeepsTop(k: nat, events: seq<Event>)
    requires k > 0 && Events(events) && Ticks(events)
    ensures Ranked(After(k, Lru, events), Top(Recency(PagesOf(events)), k), NowOf(events))
    decreases |events|
  {
    if events != [] {
      var n := |events| - 1;
      var before := events[..n];
      LruKeepsTop(k, before);
      assert PagesOf(events)[..n] == PagesOf(before);
      RecencyIsDistinct(PagesOf(before));
      TopPromotes(Recency(PagesOf(before)), k, events[n].page);
      TouchPromotes(After(k, Lru, before), Top(Recency(PagesOf(before)), k), NowOf(before), events[n]);
    }
  }

  /** After any trace the resident pages are exactly the `k` most recently used distinct
      pages, all of them when there are fewer. */
  lemma ResidentAreMostRecent(k: nat, events: seq<Event>, p: int)
    requires k > 0 && Events(events) && Ticks(events)
    ensures p in After(k, Lru, events).table <==> p in Top(Recency(PagesOf(events)), k)
  {
    LruKeepsTop(k, events);
  }

  /** Inclusion: a larger memory holds whatever a smaller one holds. */
  lemma LargerMemoryIncludes(k: nat, l: nat, events: seq<Event>, p: int)
    requires 0 < k <= l && Events(events) && Ticks(events) && p in After(k, Lru, events).table
    ensures p in After(l, Lru, events).table
  {
    LruKeepsTop(k, events);
    LruKeepsTop(l, events);
    var s := Recency(PagesOf(events));
    assert Top(s, k) <= Top(s, l);
  }

  /** An access faults unless its page is among the `k` used most recently. */
  lemma LastFault(k: nat, events: seq<Event>)
    requires k > 0 && Events(events) && Ticks(events) && events != []
    ensures var n := |events| - 1;
      After(k, Lru, events).faults
      == After(k, Lru, events[..n]).faults + if events[n].page in Top(Recency(PagesOf(events[..n])), k) then 0 else 1
  {
    var n := |events| - 1;
    LruKeepsTop(k, events[..n]);
    TouchPromotes(After(k, Lru, events[..n]), Top(Recency(PagesOf(events[..n])), k), NowOf(events[..n]), events[n]);
    hide Touch, Ranked, Resident;
  }

  /** Hence it never faults more often: least recently used has no Belady anomaly. */
  lemma {:induction false} LargerMemoryFaultsLess(k: nat, l: nat, events: seq<Event>)
    requires 0 < k <= l && Events(events) && Ticks(events)
    ensures After(l, Lru, events).faults <= After(k, Lru, events).faults
    decreases |events|
  {
    if events != [] {
      var n := |events| - 1;
      var s := Recency(PagesOf(events[..n]));
      LargerMemoryFaultsLess(k, l, events[..n]);
      assert Top(s, k) <= Top(s, l);
      hide After, Recency, Top;
      LastFault(k, events);
      LastFault(l, events);
    }
  }
}
