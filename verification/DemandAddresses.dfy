/** The physical addresses that the simulator of prj3/part1.c prints. */
module DemandAddresses {
  import opened Sequences
  import opened TlbModel
  import opened Addresses
  import opened DemandPaging
  import opened DemandPagingResults

  lemma LineSplits(backing: seq<int>, vm: Vm, address: int)
    requires |backing| == STORE && Shape(vm)
    ensures var physical := Line(backing, vm, address).0;
      && 0 <= physical < 256 * 1024
      && physical % 1024 == address % 1024
      && physical / 1024 == Access(vm, PageOf(address)).1
  {
    hide Access, ReadByte;
  }

  lemma LastLines(backing: seq<int>, trace: seq<int>)
    requires |backing| == STORE && trace != []
    ensures var before := trace[..|trace| - 1];
      Lines(backing, trace) == Lines(backing, before) + [Line(backing, After(Pages(before)), trace[|trace| - 1])]
  {
    hide Line, After, Pages;
  }

  /** The line for one address stays as it was printed. */
  lemma {:induction false} LineAt(backing: seq<int>, trace: seq<int>, k: nat)
    requires |backing| == STORE && k < |trace|
    ensures Lines(backing, trace)[k] == Line(backing, After(Pages(trace[..k])), trace[k])
    decreases |trace|
  {
    hide Line, Lines, After, Pages;
    var n := |trace| - 1;
    LastLines(backing, trace);
    if k < n {
      assert trace[..n][..k] == trace[..k] && trace[..n][k] == trace[k];
      LineAt(backing, trace[..n], k);
    }
  }

  /** On every trace the offset is kept, and the address lies in memory. */
  lemma OffsetIsKept(backing: seq<int>, trace: seq<int>, k: nat)
    requires |backing| == STORE && k < |trace|
    ensures var physical := Lines(backing, trace)[k].0;
      0 <= physical < 256 * 1024 && physical % 1024 == trace[k] % 1024
  {
    LineAt(backing, trace, k);
    hide Lines, Line;
    LineSplits(backing, After(Pages(trace[..k])), trace[k]);
  }

  // ---- The value, right or wrong ---------------------------------------------------------------

  /** Frames that the table or the buffer names hold pages that were accessed. */
  predicate HoldsAccessed(vm: Vm, pages: seq<int>)
    requires Shape(vm)
  {
    && (forall p :: 0 <= p < PAGES && vm.table[p] != -1 ==> vm.loaded[vm.table[p]] in pages)
    && (forall j :: 0 <= j < |vm.log| ==> vm.loaded[vm.log[j].physical] in pages)
  }

  lemma AccessHolds(vm: Vm, pages: seq<int>, page: int)
    requires Shape(vm) && HoldsAccessed(vm, pages) && 0 <= page < PAGES
    ensures var (vm', frame) := Access(vm, page);
      HoldsAccessed(vm', pages + [page]) && vm'.loaded[frame] in pages + [page]
  {
    var k := FindWitness(Window(vm.log), Byte(page));
    assert k != -1 ==> Window(vm.log)[k] in vm.log;
    hide Find, Window;
  }

  lemma {:induction false} AccessedAreHeld(pages: seq<int>)
    requires InRange(pages)
    ensures HoldsAccessed(After(pages), pages)
    decreases |pages|
  {
    if pages != [] {
      var before, page := pages[..|pages| - 1], pages[|pages| - 1];
      assert before + [page] == pages;
      AccessedAreHeld(before);
      hide Access, HoldsAccessed;
      AccessHolds(After(before), before, page);
    }
  }

  lemma LineValue(backing: seq<int>, vm: Vm, address: int)
    requires |backing| == STORE && Shape(vm)
    ensures var (vm', frame) := Access(vm, PageOf(address));
      vm'.loaded[frame] != -1 ==>
        0 <= vm'.loaded[frame] < 1024 && Line(backing, vm, address).1 == backing[vm'.loaded[frame] * 1024 + address % 1024]
  {
    hide Access;
  }

  /** On every trace, safe or not, the value printed is a byte of the store, at the right offset
      of a page that was accessed. */
  lemma ValueIsOfSomePage(backing: seq<int>, trace: seq<int>, k: nat)
    requires |backing| == STORE && k < |trace|
    ensures exists page :: page in Pages(trace[..k + 1]) && 0 <= page < 1024 &&
                           Lines(backing, trace)[k].1 == backing[page * 1024 + trace[k] % 1024]
  {
    hide Lines, Line, After, HoldsAccessed, Access;
    var before := Pages(trace[..k]);
    var vm := After(before);
    LineAt(backing, trace, k);
    AccessedAreHeld(before);
    PagesOfPrefix(trace, k);
    AccessHolds(vm, before, PageOf(trace[k]));
    LineValue(backing, vm, trace[k]);
    var (vm', frame) := Access(vm, PageOf(trace[k]));
    assert vm'.loaded[frame] in Pages(trace[..k + 1]);
  }

  // ---- The frame ---------------------------------------------------------------------------------

  /** A safe access goes to the frame that the table has for its page afterwards. */
  lemma SafeGoesByTable(vm: Vm, pages: seq<int>, page: int)
    requires Shape(vm) && Good(vm, pages) && 0 <= page < PAGES && Safe(pages, page)
    ensures Access(vm, page).1 == Access(vm, page).0.table[page]
  {
    StepIsRightIffSafe(vm, pages, page);
    if page in Window(Misses(pages)) {
      ListedHits(vm, pages, page);
    } else if Find(Window(vm.log), Byte(page)) != -1 {
      var w := Window(Misses(pages));
      if k :| 0 <= k < |w| && Byte(w[k]) == Byte(page) {
        AliasMisleads(vm, pages, page, k);
      } else {
        UnlistedMisses(vm, pages, page);
      }
    }
    hide Find, Good;
  }

  /** Where a page comes in the order of first access does not change later. */
  lemma {:induction false} FirstsKeepIndex(pages: seq<int>, n: nat, page: int)
    requires n <= |pages| && page in pages[..n]
    ensures page in Firsts(pages[..n]) && page in Firsts(pages)
    ensures IndexOf(Firsts(pages), page) == IndexOf(Firsts(pages[..n]), page)
    decreases |pages|
  {
    FirstsAreDistinct(pages);
    FirstsAreDistinct(pages[..n]);
    if n < |pages| {
      var m := |pages| - 1;
      assert pages[..m][..n] == pages[..n];
      FirstsKeepIndex(pages[..m], n, page);
      assert Firsts(pages)[IndexOf(Firsts(pages[..m]), page)] == page;
    } else {
      assert pages[..n] == pages;
    }
  }

  lemma PagesOfPrefix(trace: seq<int>, k: nat)
    requires k < |trace|
    ensures Pages(trace[..k + 1]) == Pages(trace[..k]) + [PageOf(trace[k])] == Pages(trace)[..k + 1]
  {
  }

  lemma {:induction false} SafeSoFar(pages: seq<int>, n: nat)
    requires AllSafe(pages) && n <= |pages|
    ensures AllSafe(pages[..n])
    decreases |pages|
  {
    if n == |pages| {
      assert pages[..n] == pages;
    } else {
      SafeSoFar(pages[..|pages| - 1], n);
      assert pages[..|pages| - 1][..n] == pages[..n];
    }
  }

  /** The frame of the last page of a safe trace. */
  lemma LastFrame(pages: seq<int>, page: int)
    requires InRange(pages) && 0 <= page < PAGES && AllSafe(pages + [page])
    ensures page in Firsts(pages + [page])
    ensures Access(After(pages), page).1 == IndexOf(Firsts(pages + [page]), page) % 256
  {
    var all := pages + [page];
    hide AllSafe, Access, Good, TableOk, LoadedOk, Firsts, Safe;
    AfterLast(pages, page);
    RightIffSafe(pages);
    FirstsAreDistinct(all);
    SafeTable(all);
    SafeGoesByTable(After(pages), pages, page);
    TableIndex(After(all), Firsts(all), page);
  }

  lemma TableIndex(vm: Vm, firsts: seq<int>, page: int)
    requires Shape(vm) && TableOk(vm, firsts) && page in firsts
    ensures 0 <= page < PAGES && vm.table[page] == IndexOf(firsts, page) % 256
  {
    var i := IndexOf(firsts, page);
    assert firsts[i] == page;
  }

  lemma AfterLast(pages: seq<int>, page: int)
    requires InRange(pages) && 0 <= page < PAGES
    ensures After(pages + [page]) == Access(After(pages), page).0
    ensures AllSafe(pages + [page]) ==> AllSafe(pages) && Safe(pages, page)
  {
    assert (pages + [page])[..|pages|] == pages;
    hide Access, Safe;
  }

  /** On a safe trace the page that came up as number `i`, from 0, is accessed in frame
      i mod 256, every time. */
  lemma FramesInOrder(backing: seq<int>, trace: seq<int>, k: nat)
    requires |backing| == STORE && AllSafe(Pages(trace)) && k < |trace|
    ensures Pages(trace)[k] in Firsts(Pages(trace))
    ensures Lines(backing, trace)[k].0 / 1024 == IndexOf(Firsts(Pages(trace)), Pages(trace)[k]) % 256
  {
    var pages, before, page := Pages(trace), Pages(trace[..k]), PageOf(trace[k]);
    hide AllSafe, Line;
    LineAt(backing, trace, k);
    LineSplits(backing, After(before), trace[k]);
    PagesOfPrefix(trace, k);
    SafeSoFar(pages, k + 1);
    LastFrame(before, page);
    FirstsKeepIndex(pages, k + 1, page);
  }

  /** While no two pages of the trace share their low byte, that is frame number `i`. */
  lemma OneFrameForEach(backing: seq<int>, trace: seq<int>, k: nat)
    requires |backing| == STORE && NoByteShared(Pages(trace)) && k < |trace|
    ensures Pages(trace)[k] in Firsts(Pages(trace))
    ensures Lines(backing, trace)[k].0 / 1024 == IndexOf(Firsts(Pages(trace)), Pages(trace)[k])
  {
    hide AllSafe, NoByteShared, Firsts, Line, Lines;
    NoByteSharedIsSafe(Pages(trace));
    FramesInOrder(backing, trace, k);
    FramesAreEnough(Pages(trace));
  }
}
