/** The translation buffer of prj3: sixteen slots written in a circle. */
module TlbModel {
  import opened Sequences

  const TLB_SIZE: nat := 16

  datatype Entry = Entry(logical: int, physical: int)

  /** What is left of a list when only the newest TLB_SIZE members are kept. */
  function Window<T>(s: seq<T>): (w: seq<T>)
    ensures |w| == if |s| <= TLB_SIZE then |s| else TLB_SIZE
  {
    if |s| <= TLB_SIZE then s else s[|s| - TLB_SIZE..]
  }

  /** Search of a list of entries, newest first; -1 when the page is not there. */
  function Find(entries: seq<Entry>, page: int): int {
    if entries == [] then -1
    else if entries[|entries| - 1].logical == page then entries[|entries| - 1].physical
    else Find(entries[..|entries| - 1], page)
  }

  /** The newest entry for the page decides. */
  lemma {:induction false} FindNewest(entries: seq<Entry>, page: int, k: int)
    requires 0 <= k < |entries| && entries[k].logical == page
    requires forall j :: k < j < |entries| ==> entries[j].logical != page
    ensures Find(entries, page) == entries[k].physical
    decreases |entries|
  {
    if k < |entries| - 1 {
      FindNewest(entries[..|entries| - 1], page, k);
    }
  }

  lemma {:induction false} FindNothing(entries: seq<Entry>, page: int)
    requires forall j :: 0 <= j < |entries| ==> entries[j].logical != page
    ensures Find(entries, page) == -1
    decreases |entries|
  {
    if entries != [] {
      FindNothing(entries[..|entries| - 1], page);
    }
  }

  /** Where the answer comes from. */
  lemma {:induction false} FindWitness(entries: seq<Entry>, page: int) returns (k: int)
    ensures -1 <= k < |entries|
    ensures k == -1 ==> Find(entries, page) == -1 && forall j :: 0 <= j < |entries| ==> entries[j].logical != page
    ensures k >= 0 ==> entries[k].logical == page && Find(entries, page) == entries[k].physical
    ensures forall j :: k < j < |entries| ==> entries[j].logical != page
    decreases |entries|
  {
    if entries == [] {
      k := -1;
    } else if entries[|entries| - 1].logical == page {
      k := |entries| - 1;
    } else {
      k := FindWitness(entries[..|entries| - 1], page);
    }
  }

  /** The first list position, counting from the oldest kept entry, that shares the slot of `a`. */
  function SameSlot(a: nat, length: nat): (j: nat)
    requires a < length && TLB_SIZE <= length
    ensures length - TLB_SIZE <= j < length && j % TLB_SIZE == a % TLB_SIZE
  {
    length - TLB_SIZE + (a - (length - TLB_SIZE)) % TLB_SIZE
  }

  class Tlb {
    const slots: array<Entry>
    var index: nat
    /** Every entry ever added, in order. */
    ghost var log: seq<Entry>

    ghost predicate Valid()
      reads this, slots
    {
      && slots.Length == TLB_SIZE
      && index == |log|
      && forall j :: 0 <= j < |log| && |log| - TLB_SIZE <= j ==> slots[j % TLB_SIZE] == log[j]
    }

    constructor ()
      ensures Valid() && log == [] && fresh(slots)
    {
      slots := new Entry[TLB_SIZE](_ => Entry(0, 0));
      index := 0;
      log := [];
    }

    /** The list position whose entry the slot of position `a` holds. */
    ghost function Holds(a: nat): (j: nat)
      requires Valid() && a < |log|
      reads this, slots
      ensures a <= j < |log| && |log| - TLB_SIZE <= j && slots[a % TLB_SIZE] == log[j]
      ensures |log| - TLB_SIZE <= a ==> j == a
    {
      if |log| - TLB_SIZE <= a then a else SameSlot(a, |log|)
    }

    /** The scan goes on to position 0 and sees slots again; it still finds what a search
        of the last TLB_SIZE entries finds. */
    method Search(page: int) returns (physical: int)
      requires Valid()
      ensures physical == Find(Window(log), page)
    {
      var a := index;
      ghost var low := if |log| <= TLB_SIZE then 0 else |log| - TLB_SIZE;
      assert Window(log) == log[low..];
      while a != 0
        invariant 0 <= a <= index
        invariant forall j :: low <= j < |log| && a <= j ==> log[j].logical != page
      {
        a := a - 1;
        var item := slots[a % TLB_SIZE];
        ghost var j := Holds(a);
        if item.logical == page {
          assert j == a;
          FindNewest(Window(log), page, a - low);
          return item.physical;
        }
      }
      FindNothing(Window(log), page);
      return -1;
    }

    method Add(logical: int, physical: int)
      requires Valid()
      modifies this, slots
      ensures Valid() && log == old(log) + [Entry(logical, physical)]
    {
      slots[index % TLB_SIZE] := Entry(logical, physical);
      index := index + 1;
      log := log + [Entry(logical, physical)];
    }
  }

  // ---- The list it stands for ------------------------------------------------------------

  /** The pages that a first-in first-out list of TLB_SIZE pages misses. */
  function Misses(pages: seq<int>): seq<int> {
    if pages == [] then [] else
      var before := Misses(pages[..|pages| - 1]);
      if pages[|pages| - 1] in Window(before) then before else before + [pages[|pages| - 1]]
  }

  lemma DistinctNext(s: seq<int>, x: int)
    requires Distinct(Window(s)) && x !in Window(s)
    ensures Distinct(Window(s + [x]))
  {
    var w := Window(s + [x]);
    forall i, j | 0 <= i < j < |w|
      ensures w[i] != w[j]
    {
      var d := |Window(s)| + 1 - |w|;
      assert w[i] == Window(s)[i + d] && (j + d < |Window(s)| ==> w[j] == Window(s)[j + d]);
    }
  }

  /** Only misses enter, so the list never holds a page twice. */
  lemma {:induction false} WindowIsDistinct(pages: seq<int>)
    ensures Distinct(Window(Misses(pages)))
    decreases |pages|
  {
    if pages != [] {
      var before, last := pages[..|pages| - 1], pages[|pages| - 1];
      WindowIsDistinct(before);
      if last !in Window(Misses(before)) {
        DistinctNext(Misses(before), last);
      }
    }
  }

  lemma {:induction false} MissesAreAccessed(pages: seq<int>)
    ensures forall m :: m in Misses(pages) ==> m in pages
    decreases |pages|
  {
    if pages != [] {
      MissesAreAccessed(pages[..|pages| - 1]);
    }
  }

  lemma MissesLast(before: seq<int>, page: int)
    ensures Misses(before + [page]) == if page in Window(Misses(before)) then Misses(before) else Misses(before) + [page]
  {
    assert (before + [page])[..|before|] == before;
    hide Window;
  }

  lemma WindowAt(s: seq<int>, j: nat)
    requires j < |Window(s)|
    ensures |Window(s)| == if |s| < 16 then |s| else 16
    ensures Window(s)[j] == s[j + |s| - |Window(s)|]
  {
  }

  lemma WindowIsPart(s: seq<int>, x: int)
    requires x !in s
    ensures x !in Window(s)
  {
  }

  lemma {:induction false} DistinctMissesAll(pages: seq<int>)
    requires Distinct(pages)
    ensures Misses(pages) == pages
    decreases |pages|
  {
    if pages != [] {
      var before, last := pages[..|pages| - 1], pages[|pages| - 1];
      assert before + [last] == pages && Distinct(before) && last !in before;
      hide *;
      DistinctMissesAll(before);
      MissesLast(before, last);
      WindowIsPart(before, last);
    }
  }

  /** Of distinct pages the last sixteen are listed: with sixteen the first one still is, with
      seventeen it no longer is. */
  lemma SixteenAreListed(pages: seq<int>, i: nat)
    requires Distinct(pages) && i < |pages|
    ensures pages[i] in Window(Misses(pages)) <==> |pages| <= i + 16
  {
    DistinctMissesAll(pages);
    hide Misses, Window;
    var w := Window(pages);
    if |pages| <= i + 16 {
      WindowAt(pages, i - (|pages| - |w|));
    } else {
      forall j | 0 <= j < |w|
        ensures w[j] != pages[i]
      {
        WindowAt(pages, j);
      }
    }
  }

  /** The entries ever added are for the pages `misses`, in that order. */
  predicate LogIs(log: seq<Entry>, misses: seq<int>) {
    |log| == |misses| && forall j :: 0 <= j < |log| ==> log[j].logical == misses[j]
  }

  /** The buffer finds the pages that the list keeps. */
  lemma FoundIffListed(log: seq<Entry>, misses: seq<int>, page: int)
    requires LogIs(log, misses) && forall j :: 0 <= j < |log| ==> log[j].physical != -1
    ensures Find(Window(log), page) != -1 <==> page in Window(misses)
  {
    hide Find;
    var w := Window(log);
    assert |w| == |Window(misses)| && forall j :: 0 <= j < |w| ==> w[j].logical == Window(misses)[j];
    var k := FindWitness(w, page);
    if k >= 0 {
      assert w[k] in log && Window(misses)[k] == page;
    }
  }
}
