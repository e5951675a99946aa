/** What the simulator of prj3/part1.c prints, and the program itself on its arrays. */
module DemandPagingResults {
  import opened Sequences
  import opened TlbModel
  import opened Addresses
  import opened DemandPaging

  function Pages(trace: seq<int>): (pages: seq<int>)
    ensures InRange(pages) && |pages| == |trace|
  {
    seq(|trace|, i requires 0 <= i < |trace| => PageOf(trace[i]))
  }

  /** The line printed for one address: physical address and value. */
  function Line(backing: seq<int>, vm: Vm, address: int): (int, int)
    requires |backing| == STORE && Shape(vm)
  {
    var (vm', frame) := Access(vm, PageOf(address));
    (frame * PAGE_SIZE + OffsetOf(address), ReadByte(backing, vm'.loaded, frame, OffsetOf(address)))
  }

  /** Everything a run prints. */
  function Lines(backing: seq<int>, trace: seq<int>): (lines: seq<(int, int)>)
    requires |backing| == STORE
    ensures |lines| == |trace|
  {
    if trace == [] then [] else
      var before := trace[..|trace| - 1];
      Lines(backing, before) + [Line(backing, After(Pages(before)), trace[|trace| - 1])]
  }

  /** Each value printed is the byte of the store at the address. */
  predicate PrintsBytesOf(backing: seq<int>, trace: seq<int>)
    requires |backing| == STORE
  {
    forall k :: 0 <= k < |trace| ==> Lines(backing, trace)[k].1 == backing[trace[k] % STORE]
  }

  /** Whatever the backing store holds. */
  ghost predicate PrintsItsBytes(trace: seq<int>) {
    forall backing: seq<int> :: |backing| == STORE ==> PrintsBytesOf(backing, trace)
  }

  /** A store in which one page can be told from all others, and from empty memory. */
  function Marked(page: int): (backing: seq<int>)
    ensures |backing| == STORE
  {
    seq(STORE, i => if i / PAGE_SIZE == page then 1 else 0)
  }

  lemma ReachingPrintsByte(backing: seq<int>, vm: Vm, address: int)
    requires |backing| == STORE && Shape(vm) && Reaches(vm, PageOf(address))
    ensures Line(backing, vm, address).1 == backing[address % STORE]
  {
    SplitAddress(address);
  }

  lemma MissingIsVisible(vm: Vm, address: int)
    requires Shape(vm) && !Reaches(vm, PageOf(address))
    ensures Line(Marked(PageOf(address)), vm, address).1 != Marked(PageOf(address))[address % STORE]
  {
    SplitAddress(address);
    var (vm', frame) := Access(vm, PageOf(address));
    var page, o, held := PageOf(address), OffsetOf(address), vm'.loaded[frame];
    assert (page * PAGE_SIZE + o) / PAGE_SIZE == page;
    assert held != -1 ==> (held * PAGE_SIZE + o) / PAGE_SIZE == held;
  }

  lemma PrintNext(backing: seq<int>, before: seq<int>, address: int)
    requires |backing| == STORE
    ensures Pages(before + [address]) == Pages(before) + [PageOf(address)]
    ensures Lines(backing, before + [address]) == Lines(backing, before) + [Line(backing, After(Pages(before)), address)]
  {
    assert (before + [address])[..|before|] == before;
  }

  lemma SplitPrint(backing: seq<int>, before: seq<int>, address: int)
    requires |backing| == STORE
    ensures PrintsBytesOf(backing, before + [address]) <==>
      PrintsBytesOf(backing, before) && Line(backing, After(Pages(before)), address).1 == backing[address % STORE]
  {
    PrintNext(backing, before, address);
    LastLine(backing, Lines(backing, before), Line(backing, After(Pages(before)), address), before, address);
  }

  lemma LastLine(backing: seq<int>, lines: seq<(int, int)>, line: (int, int), before: seq<int>, address: int)
    requires |backing| == STORE && |lines| == |before|
    ensures (forall k :: 0 <= k < |before| + 1 ==> (lines + [line])[k].1 == backing[(before + [address])[k] % STORE]) <==>
      (forall k :: 0 <= k < |before| ==> lines[k].1 == backing[before[k] % STORE]) && line.1 == backing[address % STORE]
  {
    var trace, n := before + [address], |before|;
    assert forall k :: 0 <= k < n ==> (lines + [line])[k] == lines[k] && trace[k] == before[k];
    assert (lines + [line])[n] == line && trace[n] == address;
  }

  /** One more address, for all stores at once. */
  lemma SplitPrintAll(before: seq<int>, address: int)
    ensures PrintsItsBytes(before + [address]) <==>
      PrintsItsBytes(before) && Reaches(After(Pages(before)), PageOf(address))
  {
    var vm := After(Pages(before));
    if Reaches(vm, PageOf(address)) {
      forall backing: seq<int> | |backing| == STORE
        ensures PrintsBytesOf(backing, before + [address]) <==> PrintsBytesOf(backing, before)
      {
        SplitPrint(backing, before, address);
        ReachingPrintsByte(backing, vm, address);
      }
    } else {
      MissingIsVisible(vm, address);
      SplitPrint(Marked(PageOf(address)), before, address);
    }
  }

  lemma {:induction false} CorrectIffRight(trace: seq<int>)
    ensures PrintsItsBytes(trace) <==> AllRight(Pages(trace))
    decreases |trace|
  {
    if trace != [] {
      var before, address := trace[..|trace| - 1], trace[|trace| - 1];
      assert before + [address] == trace;
      CorrectIffRight(before);
      SplitPrintAll(before, address);
      var pages := Pages(trace);
      assert pages[..|pages| - 1] == Pages(before) && pages[|pages| - 1] == PageOf(address);
    }
  }

  /** Demand paging prints the bytes of every store on exactly the traces whose pages are
      all safe. */
  lemma CorrectIffSafe(trace: seq<int>)
    ensures PrintsItsBytes(trace) <==> AllSafe(Pages(trace))
  {
    CorrectIffRight(trace);
    RightIffSafe(Pages(trace));
  }

  // ---- Traces that are safe ------------------------------------------------------------------

  /** No two pages of the trace share their low byte. */
  predicate NoByteShared(pages: seq<int>) {
    forall i, j :: 0 <= i < |pages| && 0 <= j < |pages| && Byte(pages[i]) == Byte(pages[j]) ==> pages[i] == pages[j]
  }

  function AllBytes(): (bytes: set<int>)
    ensures |bytes| == 256 && forall b :: 0 <= b < 256 ==> b in bytes
  {
    BytesBelow(256)
  }

  function BytesBelow(n: nat): (bytes: set<int>)
    ensures |bytes| == n && forall b :: b in bytes <==> 0 <= b < n
  {
    if n == 0 then {} else BytesBelow(n - 1) + {n - 1}
  }

  lemma BytesAreDistinct(pages: seq<int>, firsts: seq<int>)
    requires NoByteShared(pages) && Distinct(firsts) && forall x :: x in firsts ==> x in pages
    ensures Distinct(Bytes(firsts))
  {
    hide Byte;
    forall i, j | 0 <= i < j < |firsts|
      ensures Byte(firsts[i]) != Byte(firsts[j])
    {
      assert firsts[i] in pages && firsts[j] in pages;
    }
  }

  lemma ByteIsListed(x: int)
    ensures Byte(x) in AllBytes()
  {
  }

  /** 256 frames are enough for such a trace. */
  lemma FramesAreEnough(pages: seq<int>)
    requires NoByteShared(pages)
    ensures |Firsts(pages)| <= FRAMES
  {
    hide *;
    var firsts := Firsts(pages);
    FirstsAreDistinct(pages);
    BytesAreDistinct(pages, firsts);
    AllBytesKnown();
    forall i | 0 <= i < |firsts|
      ensures Bytes(firsts)[i] in AllBytes()
    {
      BytesAt(firsts, i);
      ByteIsListed(firsts[i]);
    }
    DistinctFits(Bytes(firsts), AllBytes());
  }

  lemma BytesAt(pages: seq<int>, i: nat)
    requires i < |pages|
    ensures Bytes(pages)[i] == Byte(pages[i])
  {
  }

  lemma AllBytesKnown()
    ensures |AllBytes()| == FRAMES
  {
  }

  lemma PrefixSharesNoByte(pages: seq<int>, k: int)
    requires NoByteShared(pages) && 0 <= k <= |pages|
    ensures NoByteShared(pages[..k])
  {
    forall i, j | 0 <= i < k && 0 <= j < k && Byte(pages[..k][i]) == Byte(pages[..k][j])
      ensures pages[..k][i] == pages[..k][j]
    {
      assert pages[..k][i] == pages[i] && pages[..k][j] == pages[j];
    }
  }

  lemma NoByteSharedIsSafeNext(pages: seq<int>)
    requires NoByteShared(pages) && pages != []
    ensures Safe(pages[..|pages| - 1], pages[|pages| - 1])
  {
    var n := |pages| - 1;
    var before := pages[..n];
    PrefixSharesNoByte(pages, n);
    FramesAreEnough(before);
    MissesAreAccessed(before);
    var w := Window(Misses(before));
    forall j | 0 <= j < |w| && Byte(w[j]) == Byte(pages[n])
      ensures w[j] == pages[n]
    {
      assert w[j] in Misses(before);
      var i :| 0 <= i < n && before[i] == w[j];
      assert pages[i] == w[j];
    }
  }

  lemma {:induction false} NoByteSharedIsSafe(pages: seq<int>)
    requires NoByteShared(pages)
    ensures AllSafe(pages)
    decreases |pages|
  {
    if pages != [] {
      PrefixSharesNoByte(pages, |pages| - 1);
      NoByteSharedIsSafe(pages[..|pages| - 1]);
      NoByteSharedIsSafeNext(pages);
    }
  }

  lemma SmallPagesShareNoByte(pages: seq<int>)
    requires forall k :: 0 <= k < |pages| ==> 0 <= pages[k] < 256
    ensures NoByteShared(pages)
  {
    assert forall k :: 0 <= k < |pages| ==> Byte(pages[k]) == pages[k];
  }

  /** The traces the program is written for: pages below 256. */
  lemma SmallPagesAreCorrect(trace: seq<int>)
    requires forall k :: 0 <= k < |trace| ==> Pages(trace)[k] < 256
    ensures PrintsItsBytes(trace)
  {
    SmallPagesShareNoByte(Pages(trace));
    NoByteSharedIsSafe(Pages(trace));
    CorrectIffSafe(trace);
  }

  /** While no frame was given twice, page number `k` in order of first access is in frame `k`. */
  lemma FramesFollowFirsts(vm: Vm, firsts: seq<int>)
    requires Shape(vm) && TableOk(vm, firsts) && LoadedOk(vm, firsts) && |firsts| <= FRAMES
    ensures forall k :: 0 <= k < |firsts| ==>
      0 <= firsts[k] < PAGES && vm.table[firsts[k]] == k && vm.loaded[k] == firsts[k]
  {
    forall k | 0 <= k < |firsts|
      ensures 0 <= firsts[k] < PAGES && vm.table[firsts[k]] == k && vm.loaded[k] == firsts[k]
    {
      assert k % FRAMES == k;
    }
  }

  lemma SafeTable(pages: seq<int>)
    requires InRange(pages) && AllSafe(pages)
    ensures TableOk(After(pages), Firsts(pages)) && LoadedOk(After(pages), Firsts(pages))
  {
    RightIffSafe(pages);
  }

  /** The page table after such a trace: the k-th page to come up is in frame `k`, the
      frames in use are 0 to `page_faults` - 1, and each holds its page. */
  lemma TableNumbersPages(pages: seq<int>)
    requires InRange(pages) && NoByteShared(pages)
    ensures var vm, firsts := After(pages), Firsts(pages);
      && vm.faults == |firsts| <= FRAMES
      && (forall k :: 0 <= k < vm.faults ==>
            0 <= firsts[k] < PAGES && vm.table[firsts[k]] == k && vm.loaded[k] == firsts[k])
      && (forall p :: 0 <= p < PAGES && p !in pages ==> vm.table[p] == -1)
  {
    NoByteSharedIsSafe(pages);
    SafeTable(pages);
    FirstsAreDistinct(pages);
    FramesAreEnough(pages);
    FramesFollowFirsts(After(pages), Firsts(pages));
  }

  /** The low bytes of the pages, which is what the buffer goes by. */
  function Bytes(pages: seq<int>): (bytes: seq<int>)
    ensures |bytes| == |pages|
  {
    seq(|pages|, i requires 0 <= i < |pages| => Byte(pages[i]))
  }

  lemma AccessFollowsBytes(vm: Vm, misses: seq<int>, page: int)
    requires Shape(vm) && LogIs(vm.log, misses) && 0 <= page < PAGES
    ensures var vm' := Access(vm, page).0;
      if Byte(page) in Window(misses) then LogIs(vm'.log, misses) && vm'.hits == vm.hits + 1
      else LogIs(vm'.log, misses + [Byte(page)]) && vm'.hits == vm.hits
  {
    FoundIffListed(vm.log, misses, Byte(page));
    hide Find, Window, Byte;
  }

  lemma BytesNext(pages: seq<int>)
    requires pages != []
    ensures var before, page := pages[..|pages| - 1], pages[|pages| - 1];
      && Bytes(pages)[..|pages| - 1] == Bytes(before)
      && Misses(Bytes(pages)) == if Byte(page) in Window(Misses(Bytes(before))) then Misses(Bytes(before))
                                 else Misses(Bytes(before)) + [Byte(page)]
  {
    assert Bytes(pages)[..|pages| - 1] == Bytes(pages[..|pages| - 1]);
  }

  /** On every trace, the buffer refines a first-in first-out list of sixteen low bytes: its
      entries are that list's misses in order, and it hits when the list does. */
  lemma {:induction false} TlbRefinesByteList(pages: seq<int>)
    requires InRange(pages)
    ensures LogIs(After(pages).log, Misses(Bytes(pages)))
    ensures After(pages).hits == |pages| - |Misses(Bytes(pages))|
    decreases |pages|
  {
    if pages != [] {
      var before, page := pages[..|pages| - 1], pages[|pages| - 1];
      TlbRefinesByteList(before);
      BytesNext(pages);
      hide Access, Misses, Bytes, Byte, Window, LogIs, Shape;
      AccessFollowsBytes(After(before), Misses(Bytes(before)), page);
    }
  }

  /** On safe traces that is a list of pages: a safe access hits exactly when its page is
      listed, and the entries kept are the pages listed, in order. */
  lemma HitIffListed(pages: seq<int>, page: int)
    requires InRange(pages) && AllSafe(pages) && 0 <= page < PAGES && Safe(pages, page)
    ensures var vm, w := After(pages), Window(Misses(pages));
      && (Access(vm, page).0.hits == vm.hits + 1 <==> page in w)
      && |Window(vm.log)| == |w| && Distinct(w)
      && forall j :: 0 <= j < |w| ==>
           0 <= w[j] < PAGES && Window(vm.log)[j] == Entry(Byte(w[j]), vm.table[w[j]])
  {
    RightIffSafe(pages);
    WindowIsDistinct(pages);
    var vm, w := After(pages), Window(Misses(pages));
    WindowEntries(vm, Misses(pages));
    TlbRefinesByteList(pages);
    AccessFollowsBytes(vm, Misses(Bytes(pages)), page);
    ListedBytes(vm, pages, page);
  }

  lemma ListedBytes(vm: Vm, pages: seq<int>, page: int)
    requires Shape(vm) && LogIs(vm.log, Misses(Bytes(pages))) && LogOk(vm, Misses(pages))
    requires Alone(Window(Misses(pages)), page)
    ensures Byte(page) in Window(Misses(Bytes(pages))) <==> page in Window(Misses(pages))
  {
    hide Byte, Bytes, Misses, Shape;
    WindowEntries(vm, Misses(pages));
    var w, bytes := Window(Misses(pages)), Window(Misses(Bytes(pages)));
    assert forall j :: 0 <= j < |w| ==> bytes[j] == Window(vm.log)[j].logical;
    hide *;
    AloneIsListed(w, bytes, page);
  }

  lemma AloneIsListed(w: seq<int>, bytes: seq<int>, page: int)
    requires |bytes| == |w| && (forall j :: 0 <= j < |w| ==> bytes[j] == Byte(w[j])) && Alone(w, page)
    ensures Byte(page) in bytes <==> page in w
  {
    hide Byte;
    if page in w {
      var j :| 0 <= j < |w| && w[j] == page;
      assert bytes[j] == Byte(page);
    }
  }

  /** Two pages that agree in the low byte, one after the other, are never safe. */
  lemma AliasedPairIsUnsafe(p: int, q: int)
    requires Byte(p) == Byte(q) && p != q
    ensures !AllSafe([p, q])
  {
    NextPage([], p);
    assert [p, q][..1] == [p] && [] + [p] == [p];
    assert Window(Misses([p]))[0] == p;
    assert !Alone(Window(Misses([p])), q);
  }

  /** The smallest traces that go wrong: page 300, then page 44.  There is room for both in
      memory; the second is served from the first's frame. */
  lemma AliasedPagesGoWrong(a: int, b: int)
    requires PageOf(a) == 300 && PageOf(b) == 44
    ensures !PrintsItsBytes([a, b])
  {
    assert Pages([a, b]) == [300, 44];
    AliasedPairIsUnsafe(300, 44);
    CorrectIffSafe([a, b]);
  }

  /** Pages 0 to m - 1, once each. */
  function Count(m: nat): (pages: seq<int>)
    ensures |pages| == m && forall i :: 0 <= i < m ==> pages[i] == i
  {
    seq(m, i => i)
  }

  lemma CountNext(m: nat)
    ensures Count(m + 1)[..m] == Count(m) && Count(m + 1) == Count(m) + [m]
  {
  }

  lemma {:induction false} CountMissesAll(m: nat)
    ensures Firsts(Count(m)) == Count(m) && Misses(Count(m)) == Count(m)
  {
    if m > 0 {
      CountMissesAll(m - 1);
      CountNext(m - 1);
      assert m - 1 !in Count(m - 1) && m - 1 !in Window(Count(m - 1));
    }
  }

  lemma WindowOfCount(m: nat, j: nat)
    requires j < |Window(Count(m))|
    ensures m - TLB_SIZE <= Window(Count(m))[j] < m
  {
  }

  lemma BytesApart(x: int, y: int)
    requires 0 < y - x < 256
    ensures Byte(x) != Byte(y)
  {
  }

  lemma CountIsAlone(m: nat)
    ensures Alone(Window(Count(m)), m)
  {
    var w := Window(Count(m));
    hide Byte, Window;
    forall j | 0 <= j < |w|
      ensures Byte(w[j]) != Byte(m)
    {
      WindowOfCount(m, j);
      BytesApart(w[j], m);
    }
  }

  /** As long as only new pages come, each is safe: its byte has not come up in the last
      sixteen misses. */
  lemma {:induction false} CountIsSafe(m: nat)
    ensures AllSafe(Count(m))
  {
    if m > 0 {
      CountIsSafe(m - 1);
      CountNext(m - 1);
      CountMissesAll(m - 1);
      CountIsAlone(m - 1);
      hide Alone, Window, Misses, Firsts;
    }
  }

  lemma FirstIsAlone(m: nat)
    requires 272 < m <= 512
    ensures Alone(Window(Count(m)), 0)
  {
    var w := Window(Count(m));
    hide Byte, Window;
    forall j | 0 <= j < |w|
      ensures Byte(w[j]) != Byte(0)
    {
      WindowOfCount(m, j);
      BytesApart(256, w[j]);
      assert Byte(256) == Byte(0) by {
        PageBytes();
      }
    }
  }

  lemma PageBytes()
    ensures Byte(256) == Byte(0)
  {
  }

  /** The other way to be unsafe: no listed page shares the page's byte, but 256 pages have come
      up since, and its frame was given to the last of them. */
  lemma ReplacedIsUnsafe(m: nat)
    requires 272 < m <= 512
    ensures Alone(Window(Misses(Count(m))), 0) && !NotReplaced(Firsts(Count(m)), 0)
    ensures AllSafe(Count(m)) && !AllSafe(Count(m) + [0])
  {
    CountMissesAll(m);
    CountIsSafe(m);
    FirstIsAlone(m);
    assert Count(m)[0] == 0;
    assert (Count(m) + [0])[..m] == Count(m);
    hide Alone, Window, Misses, Firsts, Count;
  }

  /** A trace of 273 new pages is printed right; its first page, accessed once more, is not. */
  lemma ReplacedPageGoesWrong(trace: seq<int>, a: int)
    requires Pages(trace) == Count(273) && PageOf(a) == 0
    ensures PrintsItsBytes(trace) && !PrintsItsBytes(trace + [a])
  {
    ReplacedIsUnsafe(273);
    CorrectIffSafe(trace);
    CorrectIffSafe(trace + [a]);
    assert Pages(trace + [a]) == Pages(trace) + [0];
  }

  // ---- The program ---------------------------------------------------------------------------

  class Simulator {
    const tlb: Tlb
    const pagetable: array<int>
    const memory: array<int>
    const backing: seq<int>
    var freePage: int
    var pageFaults: nat
    var tlbHits: nat
    /** The page last copied into each frame. */
    ghost var loaded: seq<int>

    ghost function Value(): Vm
      reads this, tlb, pagetable
    {
      Vm(tlb.log, pagetable[..], loaded, freePage, pageFaults, tlbHits)
    }

    ghost predicate Valid()
      reads this, tlb, tlb.slots, pagetable, memory
    {
      && tlb.Valid() && Shape(Value()) && pagetable.Length == PAGES
      && |backing| == STORE && memory.Length == STORE && pagetable != memory
      && forall i :: 0 <= i < FRAMES * PAGE_SIZE ==>
           memory[i] == ReadByte(backing, loaded, i / PAGE_SIZE, i % PAGE_SIZE)
    }

    constructor (backing: seq<int>)
      requires |backing| == STORE
      ensures Valid() && Value() == Start() && this.backing == backing
      ensures fresh(tlb) && fresh(tlb.slots) && fresh(pagetable) && fresh(memory)
    {
      this.backing := backing;
      tlb := new Tlb();
      pagetable := new int[PAGES](_ => -1);
      memory := new int[STORE](_ => 0);
      freePage, pageFaults, tlbHits := 0, 0, 0;
      loaded := seq(FRAMES, _ => -1);
      new;
      assert Value() == Start();
    }

    /** `memcpy` of a backing page into a frame. */
    method CopyIn(page: int, frame: int)
      requires Valid() && 0 <= page < PAGES && 0 <= frame < FRAMES
      modifies this`loaded, memory
      ensures Valid() && Value() == old(Value()).(loaded := old(loaded)[frame := page])
    {
      forall o | 0 <= o < PAGE_SIZE {
        memory[frame * PAGE_SIZE + o] := backing[page * PAGE_SIZE + o];
      }
      loaded := loaded[frame := page];
      forall i | 0 <= i < FRAMES * PAGE_SIZE
        ensures memory[i] == ReadByte(backing, loaded, i / PAGE_SIZE, i % PAGE_SIZE)
      {
        var f, o := i / PAGE_SIZE, i % PAGE_SIZE;
        assert i == f * PAGE_SIZE + o;
      }
    }

    /** The part of the loop for a page that is not in memory. */
    method Fault(page: int) returns (frame: int)
      requires Valid() && 0 <= page < PAGES && pagetable[page] == -1
      modifies this, pagetable, memory
      ensures Valid() && frame == old(freePage)
      ensures Value() == old(Value()).(table := old(pagetable[..])[page := frame], loaded := old(loaded)[frame := page],
                                       free := Byte(frame + 1), faults := old(pageFaults) + 1)
    {
      pageFaults := pageFaults + 1;
      frame := freePage;
      freePage := Byte(freePage + 1);
      pagetable[page] := frame;
      CopyIn(page, frame);
    }

    method Translate(page: int) returns (frame: int)
      requires Valid() && 0 <= page < PAGES
      modifies this, tlb, tlb.slots, pagetable, memory
      ensures Valid() && (Value(), frame) == Access(old(Value()), page)
    {
      hide ReadByte, Find;
      FoundInRange(Value(), Byte(page));
      frame := tlb.Search(Byte(page));
      if frame != -1 {
        tlbHits := tlbHits + 1;
      } else {
        frame := pagetable[page];
        if frame == -1 {
          frame := Fault(page);
        }
        tlb.Add(Byte(page), Byte(frame));
      }
    }

    /** One turn of the loop: the physical address and the value printed. */
    method Step(address: int) returns (physical: int, value: int)
      requires Valid()
      modifies this, tlb, tlb.slots, pagetable, memory
      ensures Valid() && Value() == Access(old(Value()), PageOf(address)).0
      ensures (physical, value) == Line(backing, old(Value()), address)
    {
      var offset, page := OffsetOf(address), PageOf(address);
      var frame := Translate(page);
      physical := frame * PAGE_SIZE + offset;
      assert physical / PAGE_SIZE == frame && physical % PAGE_SIZE == offset;
      value := memory[physical];
    }

    /** The translation loop.  By `CorrectIffSafe` the values are the bytes of the store
        at the addresses on safe traces, and on no others for every store. */
    method Run(trace: seq<int>) returns (lines: seq<(int, int)>)
      requires Valid() && Value() == Start()
      modifies this, tlb, tlb.slots, pagetable, memory
      ensures Valid() && Value() == After(Pages(trace))
      ensures lines == Lines(backing, trace)
    {
      hide Access, Line;
      lines := [];
      var n := 0;
      while n < |trace|
        invariant 0 <= n <= |trace| && Valid() && Value() == After(Pages(trace[..n]))
        invariant lines == Lines(backing, trace[..n])
      {
        ghost var before := trace[..n];
        assert before + [trace[n]] == trace[..n + 1];
        AfterNext(before, trace[n]);
        PrintNext(backing, before, trace[n]);
        var physical, value := Step(trace[n]);
        lines := lines + [(physical, value)];
        n := n + 1;
      }
      assert trace[..n] == trace;
    }
  }

  lemma AfterNext(before: seq<int>, address: int)
    ensures Pages(before + [address]) == Pages(before) + [PageOf(address)]
    ensures After(Pages(before + [address])) == Access(After(Pages(before)), PageOf(address)).0
  {
    assert (Pages(before) + [PageOf(address)])[..|before|] == Pages(before);
    assert Pages(before + [address]) == Pages(before) + [PageOf(address)];
  }
}
