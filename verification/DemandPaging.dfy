/** prj3/part1.c: demand paging with a translation buffer, as written.

    The buffer keeps the page number in an `unsigned char`, and so does `free_page`, while
    there are 1024 pages.  This module finds exactly which traces are still translated
    correctly. */
module DemandPaging {
  import opened Sequences
  import opened TlbModel
  import opened Addresses

  /** Conversion to `unsigned char`. */
  function Byte(x: int): (b: int)
    ensures 0 <= b < 256
  {
    x % 256
  }

  /** `log` is everything ever put into the buffer; `loaded[f]` the page last copied into
      frame `f`, -1 for none. */
  datatype Vm = Vm(log: seq<Entry>, table: seq<int>, loaded: seq<int>, free: int, faults: nat, hits: nat)

  predicate LoadedInRange(loaded: seq<int>) {
    |loaded| == FRAMES && forall f :: 0 <= f < FRAMES ==> -1 <= loaded[f] < PAGES
  }

  predicate Shape(vm: Vm) {
    && |vm.table| == PAGES && LoadedInRange(vm.loaded) && 0 <= vm.free < FRAMES
    && (forall p :: 0 <= p < PAGES ==> -1 <= vm.table[p] < FRAMES)
    && (forall j :: 0 <= j < |vm.log| ==> 0 <= vm.log[j].physical < FRAMES)
  }

  lemma FoundInRange(vm: Vm, page: int)
    requires Shape(vm)
    ensures -1 <= Find(Window(vm.log), page) < FRAMES
  {
    var _ := FindWitness(Window(vm.log), page);
  }

  function Start(): Vm {
    Vm([], seq(PAGES, _ => -1), seq(FRAMES, _ => -1), 0, 0, 0)
  }

  /** One turn of the translation loop: the new state and the frame. */
  function Access(vm: Vm, page: int): (r: (Vm, int))
    requires Shape(vm) && 0 <= page < PAGES
    ensures Shape(r.0) && 0 <= r.1 < FRAMES
  {
    FoundInRange(vm, Byte(page));
    var found := Find(Window(vm.log), Byte(page));
    if found != -1 then (vm.(hits := vm.hits + 1), found)
    else if vm.table[page] != -1 then
      (vm.(log := vm.log + [Entry(Byte(page), Byte(vm.table[page]))]), vm.table[page])
    else
      (Vm(vm.log + [Entry(Byte(page), vm.free)], vm.table[page := vm.free], vm.loaded[vm.free := page],
          Byte(vm.free + 1), vm.faults + 1, vm.hits), vm.free)
  }

  /** The byte a frame holds; memory starts as zeros. */
  function ReadByte(backing: seq<int>, loaded: seq<int>, frame: int, offset: int): int
    requires |backing| == STORE && LoadedInRange(loaded) && 0 <= frame < FRAMES && 0 <= offset < PAGE_SIZE
  {
    if loaded[frame] == -1 then 0 else backing[loaded[frame] * PAGE_SIZE + offset]
  }

  // ---- Runs over page sequences ------------------------------------------------------------

  function After(pages: seq<int>): (vm: Vm)
    requires InRange(pages)
    ensures Shape(vm)
  {
    if pages == [] then Start() else Access(After(pages[..|pages| - 1]), pages[|pages| - 1]).0
  }

  /** The next access is sent to a frame that holds its page. */
  predicate Reaches(vm: Vm, page: int)
    requires Shape(vm) && 0 <= page < PAGES
  {
    var (vm', frame) := Access(vm, page);
    vm'.loaded[frame] == page
  }

  /** No other page of the list has this page's low byte. */
  predicate Alone(w: seq<int>, page: int) {
    forall j :: 0 <= j < |w| && Byte(w[j]) == Byte(page) ==> w[j] == page
  }

  /** If the page was seen before, fewer than 256 pages have come up for the first time since. */
  predicate NotReplaced(firsts: seq<int>, page: int) {
    forall i :: 0 <= i < |firsts| && firsts[i] == page ==> |firsts| <= i + FRAMES
  }

  /** What a caller can check about the next page from the trace alone. */
  predicate Safe(before: seq<int>, page: int) {
    Alone(Window(Misses(before)), page) && NotReplaced(Firsts(before), page)
  }

  /** Every page of the trace is safe where it stands. */
  predicate AllSafe(pages: seq<int>) {
    pages == [] || (AllSafe(pages[..|pages| - 1]) && Safe(pages[..|pages| - 1], pages[|pages| - 1]))
  }

  /** Every access of the trace was sent to a frame that held its page. */
  predicate AllRight(pages: seq<int>)
    requires InRange(pages)
  {
    pages == [] || (AllRight(pages[..|pages| - 1]) && Reaches(After(pages[..|pages| - 1]), pages[|pages| - 1]))
  }

  // ---- The invariant -------------------------------------------------------------------------

  /** The buffer is the reference list, narrowed to bytes, with frames from the table. */
  predicate LogOk(vm: Vm, misses: seq<int>)
    requires Shape(vm)
  {
    && |vm.log| == |misses|
    && forall j :: 0 <= j < |misses| ==>
         0 <= misses[j] < PAGES && vm.log[j] == Entry(Byte(misses[j]), vm.table[misses[j]])
  }

  /** Frames are handed out in a circle, in the order of first access. */
  predicate TableOk(vm: Vm, firsts: seq<int>)
    requires Shape(vm)
  {
    && InRange(firsts) && Distinct(firsts)
    && (forall i :: 0 <= i < |firsts| ==> vm.table[firsts[i]] == i % FRAMES)
    && (forall p :: 0 <= p < PAGES && p !in firsts ==> vm.table[p] == -1)
    && vm.free == |firsts| % FRAMES && vm.faults == |firsts|
  }

  /** The 256 pages that came last are in their frames. */
  predicate LoadedOk(vm: Vm, firsts: seq<int>)
    requires Shape(vm)
  {
    forall i :: 0 <= i < |firsts| && |firsts| <= i + FRAMES ==> vm.loaded[i % FRAMES] == firsts[i]
  }

  predicate BytesDistinct(w: seq<int>) {
    forall i, j :: 0 <= i < j < |w| ==> Byte(w[i]) != Byte(w[j])
  }

  /** A page of the buffer that lost its frame lost it to one that entered the buffer later. */
  predicate LosersAreOlder(vm: Vm, w: seq<int>)
    requires Shape(vm) && InRange(w)
  {
    forall j :: 0 <= j < |w| && vm.table[w[j]] >= 0 && vm.loaded[vm.table[w[j]]] != w[j] ==>
      vm.loaded[vm.table[w[j]]] in w[j + 1..]
  }

  predicate GoodFor(vm: Vm, firsts: seq<int>, misses: seq<int>)
    requires Shape(vm)
  {
    && (forall m :: m in misses ==> m in firsts)
    && LogOk(vm, misses)
    && TableOk(vm, firsts)
    && LoadedOk(vm, firsts)
    && BytesDistinct(Window(misses))
    && InRange(Window(misses))
    && LosersAreOlder(vm, Window(misses))
  }

  predicate Good(vm: Vm, pages: seq<int>)
    requires Shape(vm)
  {
    InRange(pages) && GoodFor(vm, Firsts(pages), Misses(pages))
  }

  /** The kept entries are the kept misses. */
  lemma WindowEntries(vm: Vm, misses: seq<int>)
    requires Shape(vm) && LogOk(vm, misses)
    ensures |Window(vm.log)| == |Window(misses)|
    ensures forall j :: 0 <= j < |Window(misses)| ==>
      var m := Window(misses)[j];
      0 <= m < PAGES && Window(vm.log)[j] == Entry(Byte(m), vm.table[m])
  {
  }

  /** The last position before `n` that has the frame of position `i`. */
  lemma LastInFrame(i: nat, n: nat) returns (k: nat)
    requires i < n
    ensures i <= k < n <= k + FRAMES && k % FRAMES == i % FRAMES
    decreases n - i
  {
    if n <= i + FRAMES {
      k := i;
    } else {
      k := LastInFrame(i + FRAMES, n);
    }
  }

  /** Whether a page still is in its frame depends on how many came after it. */
  lemma StillLoaded(vm: Vm, firsts: seq<int>, i: int)
    requires Shape(vm) && TableOk(vm, firsts) && LoadedOk(vm, firsts) && 0 <= i < |firsts|
    ensures vm.loaded[i % FRAMES] == firsts[i] <==> |firsts| <= i + FRAMES
  {
    var k := LastInFrame(i, |firsts|);
    assert vm.loaded[k % FRAMES] == firsts[k];
  }

  lemma SeenHasFrame(vm: Vm, firsts: seq<int>, page: int)
    requires Shape(vm) && TableOk(vm, firsts) && 0 <= page < PAGES
    ensures page in firsts <==> vm.table[page] != -1
  {
  }

  /** A page the buffer lists is a hit, in the frame of the table. */
  lemma ListedHits(vm: Vm, pages: seq<int>, page: int)
    requires Shape(vm) && Good(vm, pages) && page in Window(Misses(pages))
    ensures 0 <= page < PAGES && page in Firsts(pages)
    ensures Find(Window(vm.log), Byte(page)) == vm.table[page] && vm.table[page] != -1
    ensures Alone(Window(Misses(pages)), page)
  {
    var w := Window(Misses(pages));
    WindowEntries(vm, Misses(pages));
    var k :| 0 <= k < |w| && w[k] == page;
    assert page in Misses(pages);
    SeenHasFrame(vm, Firsts(pages), page);
    ListedOnce(w, k);
    FindNewest(Window(vm.log), Byte(page), k);
  }

  lemma NotReplacedIsLoaded(vm: Vm, firsts: seq<int>, page: int)
    requires Shape(vm) && TableOk(vm, firsts) && LoadedOk(vm, firsts) && 0 <= page < PAGES
    ensures page !in firsts ==> NotReplaced(firsts, page)
    ensures page in firsts ==> vm.table[page] != -1
    ensures page in firsts ==> (NotReplaced(firsts, page) <==> vm.loaded[vm.table[page]] == page)
  {
    if page in firsts {
      var i := IndexOf(firsts, page);
      StillLoaded(vm, firsts, i);
      assert forall k :: 0 <= k < |firsts| && firsts[k] == page ==> k == i;
    }
  }

  lemma ListedOnce(w: seq<int>, k: int)
    requires BytesDistinct(w) && 0 <= k < |w|
    ensures forall j :: 0 <= j < |w| && Byte(w[j]) == Byte(w[k]) ==> j == k
  {
  }

  /** A listed page with the same byte, but another page, is hit instead: the wrong frame. */
  lemma AliasMisleads(vm: Vm, pages: seq<int>, page: int, k: int)
    requires Shape(vm) && Good(vm, pages) && 0 <= page < PAGES && page !in Window(Misses(pages))
    requires 0 <= k < |Window(Misses(pages))| && Byte(Window(Misses(pages))[k]) == Byte(page)
    ensures Find(Window(vm.log), Byte(page)) != -1
    ensures !Reaches(vm, page)
  {
    var w := Window(Misses(pages));
    WindowEntries(vm, Misses(pages));
    forall j | k < j < |w|
      ensures Window(vm.log)[j].logical != Byte(page)
    {
      assert Byte(w[k]) != Byte(w[j]);
    }
    FindNewest(Window(vm.log), Byte(page), k);
    assert w[k] in Misses(pages);
    assert page !in w[k + 1..];
  }

  /** With no such page listed the access misses. */
  lemma UnlistedMisses(vm: Vm, pages: seq<int>, page: int)
    requires Shape(vm) && Good(vm, pages)
    requires forall j :: 0 <= j < |Window(Misses(pages))| ==> Byte(Window(Misses(pages))[j]) != Byte(page)
    ensures Find(Window(vm.log), Byte(page)) == -1
  {
    WindowEntries(vm, Misses(pages));
    FindNothing(Window(vm.log), Byte(page));
  }

  // ---- One access ----------------------------------------------------------------------------

  lemma NextPage(pages: seq<int>, page: int)
    ensures (pages + [page])[..|pages|] == pages
    ensures Misses(pages + [page]) ==
      if page in Window(Misses(pages)) then Misses(pages) else Misses(pages) + [page]
    ensures Firsts(pages + [page]) == if page in Firsts(pages) then Firsts(pages) else Firsts(pages) + [page]
  {
    assert (pages + [page])[..|pages|] == pages;
  }

  lemma WindowAppend<T>(s: seq<T>, x: T)
    ensures Window(s + [x]) == (if |s| < TLB_SIZE then Window(s) else Window(s)[1..]) + [x]
  {
  }

  /** The list without its oldest page, if it was full, and with a new one. */
  function Slide(w: seq<int>, page: int): (w': seq<int>)
    requires |w| <= TLB_SIZE
    ensures page in w'
  {
    (if |w| < TLB_SIZE then w else w[1..]) + [page]
  }

  lemma SlideKeepsWindow(w: seq<int>, page: int)
    requires |w| <= TLB_SIZE && BytesDistinct(w) && InRange(w) && 0 <= page < PAGES
    requires forall j :: 0 <= j < |w| ==> Byte(w[j]) != Byte(page)
    ensures BytesDistinct(Slide(w, page)) && InRange(Slide(w, page))
  {
  }

  lemma SlideKeepsLoser(vm: Vm, vm': Vm, w: seq<int>, w': seq<int>, page: int, j: nat, i: nat)
    requires Shape(vm) && Shape(vm') && InRange(w) && LosersAreOlder(vm, w)
    requires i < |w| && j < |w'| && w'[j] == w[i] && w'[j + 1..] == w[i + 1..] + [page]
    requires vm'.table[w[i]] == vm.table[w[i]] >= 0
    requires var f := vm.table[w[i]]; vm'.loaded[f] != w[i] && (vm'.loaded[f] == vm.loaded[f] || vm'.loaded[f] == page)
    ensures vm'.loaded[vm'.table[w'[j]]] in w'[j + 1..]
  {
  }

  lemma SlideShifts(w: seq<int>, page: int, j: nat)
    requires |w| <= TLB_SIZE && j < |Slide(w, page)|
    ensures var w', d := Slide(w, page), if |w| < TLB_SIZE then 0 else 1;
      if j == |w'| - 1 then w'[j] == page
      else j + d < |w| && w'[j] == w[j + d] && w'[j + 1..] == w[j + d + 1..] + [page]
  {
  }

  lemma SlideKeepsLosers(vm: Vm, vm': Vm, w: seq<int>, page: int)
    requires Shape(vm) && Shape(vm') && |w| <= TLB_SIZE && InRange(w) && InRange(Slide(w, page))
    requires LosersAreOlder(vm, w) && forall j :: 0 <= j < |w| ==> vm'.table[w[j]] == vm.table[w[j]]
    requires forall f :: 0 <= f < FRAMES ==> vm'.loaded[f] == vm.loaded[f] || vm'.loaded[f] == page
    requires vm'.table[page] >= 0 && vm'.loaded[vm'.table[page]] == page
    ensures LosersAreOlder(vm', Slide(w, page))
  {
    var w', d := Slide(w, page), if |w| < TLB_SIZE then 0 else 1;
    hide Slide;
    forall j | 0 <= j < |w'| && vm'.table[w'[j]] >= 0 && vm'.loaded[vm'.table[w'[j]]] != w'[j]
      ensures vm'.loaded[vm'.table[w'[j]]] in w'[j + 1..]
    {
      hide LosersAreOlder;
      SlideShifts(w, page, j);
      SlideKeepsLoser(vm, vm', w, w', page, j, j + d);
    }
  }

  lemma MissKeepsLog(vm: Vm, vm': Vm, misses: seq<int>, page: int)
    requires Shape(vm) && Shape(vm') && LogOk(vm, misses) && 0 <= page < PAGES
    requires forall m :: m in misses ==> 0 <= m < PAGES && vm'.table[m] == vm.table[m]
    requires vm'.log == vm.log + [Entry(Byte(page), vm'.table[page])]
    ensures LogOk(vm', misses + [page])
  {
    hide Byte;
  }

  /** What a miss leaves behind, whether or not it was a fault. */
  lemma MissKeepsGood(vm: Vm, vm': Vm, firsts: seq<int>, firsts': seq<int>, misses: seq<int>, page: int)
    requires Shape(vm) && Shape(vm') && GoodFor(vm, firsts, misses) && 0 <= page < PAGES
    requires forall j :: 0 <= j < |Window(misses)| ==> Byte(Window(misses)[j]) != Byte(page)
    requires TableOk(vm', firsts') && LoadedOk(vm', firsts') && page in firsts' && forall m :: m in firsts ==> m in firsts'
    requires forall p :: 0 <= p < PAGES && p in firsts ==> vm'.table[p] == vm.table[p]
    requires forall f :: 0 <= f < FRAMES ==> vm'.loaded[f] == vm.loaded[f] || vm'.loaded[f] == page
    requires vm'.table[page] >= 0 && vm'.loaded[vm'.table[page]] == page
    requires vm'.log == vm.log + [Entry(Byte(page), vm'.table[page])]
    ensures GoodFor(vm', firsts', misses + [page])
  {
    var w := Window(misses);
    WindowAppend(misses, page);
    SlideKeepsWindow(w, page);
    forall j | 0 <= j < |w|
      ensures vm'.table[w[j]] == vm.table[w[j]]
    {
      assert w[j] in misses;
    }
    assert forall m :: m in misses ==> 0 <= m < PAGES by {
      LogInRange(vm, misses);
    }
    hide TableOk, LoadedOk, LogOk, LosersAreOlder, BytesDistinct, Byte, Window;
    SlideKeepsLosers(vm, vm', w, page);
    MissKeepsLog(vm, vm', misses, page);
  }

  lemma LogInRange(vm: Vm, misses: seq<int>)
    requires Shape(vm) && LogOk(vm, misses)
    ensures forall m :: m in misses ==> 0 <= m < PAGES
  {
  }

  /** A miss whose page has a frame already. */
  lemma TableHitKeepsGood(vm: Vm, firsts: seq<int>, misses: seq<int>, page: int)
    requires Shape(vm) && GoodFor(vm, firsts, misses) && 0 <= page < PAGES && page in firsts
    requires forall j :: 0 <= j < |Window(misses)| ==> Byte(Window(misses)[j]) != Byte(page)
    requires vm.table[page] != -1 && vm.loaded[vm.table[page]] == page
    requires Find(Window(vm.log), Byte(page)) == -1
    ensures GoodFor(Access(vm, page).0, firsts, misses + [page])
  {
    TableHitIs(vm, page);
    hide *;
    var vm' := Access(vm, page).0;
    OnlyLogAdded(vm, vm', firsts, misses, page);
    MissKeepsGood(vm, vm', firsts, firsts, misses, page);
  }

  /** What a miss does to a page that has a frame. */
  lemma TableHitIs(vm: Vm, page: int)
    requires Shape(vm) && 0 <= page < PAGES && vm.table[page] != -1 && Find(Window(vm.log), Byte(page)) == -1
    ensures Access(vm, page).0 == vm.(log := vm.log + [Entry(Byte(page), vm.table[page])])
  {
    hide Find, Window;
  }

  lemma OnlyLogAdded(vm: Vm, vm': Vm, firsts: seq<int>, misses: seq<int>, page: int)
    requires Shape(vm) && Shape(vm') && GoodFor(vm, firsts, misses) && 0 <= page < PAGES
    requires vm' == vm.(log := vm.log + [Entry(Byte(page), vm.table[page])])
    ensures TableOk(vm', firsts) && LoadedOk(vm', firsts)
  {
  }

  lemma FramesApart(i: nat, n: nat)
    requires i < n < i + FRAMES
    ensures i % FRAMES != n % FRAMES
  {
  }

  lemma FaultKeepsLoaded(vm: Vm, firsts: seq<int>, page: int, loaded: seq<int>)
    requires Shape(vm) && LoadedOk(vm, firsts) && vm.free == |firsts| % FRAMES && loaded == vm.loaded[vm.free := page]
    requires LoadedInRange(loaded)
    ensures LoadedOk(vm.(loaded := loaded), firsts + [page])
  {
    var n, firsts' := |firsts|, firsts + [page];
    forall i | 0 <= i < |firsts'| && |firsts'| <= i + FRAMES
      ensures loaded[i % FRAMES] == firsts'[i]
    {
      if i < n {
        FramesApart(i, n);
      }
    }
  }

  lemma FaultKeepsTable(vm: Vm, firsts: seq<int>, page: int)
    requires Shape(vm) && TableOk(vm, firsts) && LoadedOk(vm, firsts) && 0 <= page < PAGES && page !in firsts
    requires Find(Window(vm.log), Byte(page)) == -1
    ensures TableOk(Access(vm, page).0, firsts + [page]) && LoadedOk(Access(vm, page).0, firsts + [page])
  {
    SeenHasFrame(vm, firsts, page);
    FaultIs(vm, page);
    var vm', firsts' := Access(vm, page).0, firsts + [page];
    hide Access, Find, Window;
    assert vm'.free == (|firsts| + 1) % FRAMES;
    assert forall p :: p in firsts' <==> p in firsts || p == page;
    FaultKeepsLoaded(vm, firsts, page, vm'.loaded);
  }

  /** A page seen for the first time. */
  lemma FaultKeepsGood(vm: Vm, firsts: seq<int>, misses: seq<int>, page: int)
    requires Shape(vm) && GoodFor(vm, firsts, misses) && 0 <= page < PAGES && page !in firsts
    requires forall j :: 0 <= j < |Window(misses)| ==> Byte(Window(misses)[j]) != Byte(page)
    requires Find(Window(vm.log), Byte(page)) == -1
    ensures GoodFor(Access(vm, page).0, firsts + [page], misses + [page])
    ensures Reaches(vm, page)
  {
    SeenHasFrame(vm, firsts, page);
    FaultKeepsTable(vm, firsts, page);
    FaultIs(vm, page);
    var vm' := Access(vm, page).0;
    hide Access, Find, TableOk, LoadedOk, LogOk, LosersAreOlder, BytesDistinct, Window;
    MissKeepsGood(vm, vm', firsts, firsts + [page], misses, page);
  }

  /** What a fault does. */
  lemma FaultIs(vm: Vm, page: int)
    requires Shape(vm) && 0 <= page < PAGES && vm.table[page] == -1 && Find(Window(vm.log), Byte(page)) == -1
    ensures Access(vm, page) == (Vm(vm.log + [Entry(Byte(page), vm.free)], vm.table[page := vm.free],
                                    vm.loaded[vm.free := page], Byte(vm.free + 1), vm.faults + 1, vm.hits), vm.free)
    ensures Reaches(vm, page)
  {
    hide Find, Window;
  }

  /** A miss reaches its page unless the page's frame was given away. */
  lemma UnlistedStep(vm: Vm, firsts: seq<int>, misses: seq<int>, page: int)
    requires Shape(vm) && GoodFor(vm, firsts, misses) && 0 <= page < PAGES
    requires forall j :: 0 <= j < |Window(misses)| ==> Byte(Window(misses)[j]) != Byte(page)
    requires Find(Window(vm.log), Byte(page)) == -1
    ensures Reaches(vm, page) <==> NotReplaced(firsts, page)
    ensures NotReplaced(firsts, page) ==>
      GoodFor(Access(vm, page).0, if page in firsts then firsts else firsts + [page], misses + [page])
  {
    NotReplacedIsLoaded(vm, firsts, page);
    if page !in firsts {
      FaultKeepsGood(vm, firsts, misses, page);
    } else if vm.loaded[vm.table[page]] == page {
      TableHitKeepsGood(vm, firsts, misses, page);
    }
  }

  lemma HitKeepsGood(vm: Vm, firsts: seq<int>, misses: seq<int>)
    requires Shape(vm) && GoodFor(vm, firsts, misses)
    ensures GoodFor(vm.(hits := vm.hits + 1), firsts, misses)
  {
  }

  lemma ListedStep(vm: Vm, pages: seq<int>, page: int)
    requires Shape(vm) && Good(vm, pages) && page in Window(Misses(pages))
    ensures 0 <= page < PAGES && page in Firsts(pages) && Alone(Window(Misses(pages)), page)
    ensures Reaches(vm, page) <==> NotReplaced(Firsts(pages), page)
    ensures GoodFor(Access(vm, page).0, Firsts(pages), Misses(pages))
  {
    ListedHits(vm, pages, page);
    NotReplacedIsLoaded(vm, Firsts(pages), page);
    HitKeepsGood(vm, Firsts(pages), Misses(pages));
  }

  /** The next access reaches its page if and only if it is safe. */
  lemma StepIsRightIffSafe(vm: Vm, pages: seq<int>, page: int)
    requires Shape(vm) && Good(vm, pages) && 0 <= page < PAGES
    ensures Reaches(vm, page) <==> Safe(pages, page)
    ensures Safe(pages, page) ==> Good(Access(vm, page).0, pages + [page])
  {
    var w := Window(Misses(pages));
    NextPage(pages, page);
    if page in w {
      ListedStep(vm, pages, page);
    } else if k :| 0 <= k < |w| && Byte(w[k]) == Byte(page) {
      AliasMisleads(vm, pages, page, k);
    } else {
      UnlistedMisses(vm, pages, page);
      UnlistedStep(vm, Firsts(pages), Misses(pages), page);
    }
  }

  lemma StartIsGood()
    ensures Good(Start(), [])
  {
  }

  /** The exact condition.  Every access of a trace reaches its own page if and only if
      every page of the trace is safe where it stands. */
  lemma {:induction false} RightIffSafe(pages: seq<int>)
    requires InRange(pages)
    ensures AllRight(pages) <==> AllSafe(pages)
    ensures AllSafe(pages) ==> Good(After(pages), pages)
    decreases |pages|
  {
    if pages == [] {
      StartIsGood();
    } else {
      var n := |pages| - 1;
      var before := pages[..n];
      assert before + [pages[n]] == pages;
      RightIffSafe(before);
      if AllSafe(before) {
        StepIsRightIffSafe(After(before), before, pages[n]);
      }
    }
  }
}
