/** Sizes and address arithmetic that both simulators of prj3 define alike. */
module Addresses {
  const PAGES: nat := 1024
  const PAGE_SIZE: nat := 1024
  const FRAMES: nat := 256
  const STORE: nat := 0x10_0000

  /** `(address >> 10) & 1023` and `address & 1023`, for negative addresses as well. */
  function PageOf(address: int): (p: int)
    ensures 0 <= p < PAGES
  {
    (address / PAGE_SIZE) % PAGES
  }

  function OffsetOf(address: int): (o: int)
    ensures 0 <= o < PAGE_SIZE
  {
    address % PAGE_SIZE
  }

  lemma SplitAddress(address: int)
    ensures address % 0x10_0000 == PageOf(address) * 1024 + OffsetOf(address)
    ensures 0 <= PageOf(address) < 1024 && 0 <= OffsetOf(address) < 1024
  {
    var q, d := address / PAGE_SIZE, (address / PAGE_SIZE) / PAGES;
    assert address == PAGE_SIZE * q + OffsetOf(address) && q == PAGES * d + PageOf(address);
    assert address == STORE * d + (PageOf(address) * PAGE_SIZE + OffsetOf(address));
  }

  /** Page numbers only. */
  predicate InRange(pages: seq<int>) {
    forall i :: 0 <= i < |pages| ==> 0 <= pages[i] < PAGES
  }
}
