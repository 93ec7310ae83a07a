/** Splitting a 32-bit virtual address into page number and offset, the signed region test, and the
    physical address of a frame. Addresses are 32-bit words; the masks and shifts are those of the
    program, and the region test compares the words as signed integers, as the program does. */
module Addresses {

  const OUTER_INDEX_MASK: bv32 := 0xffc0_0000
  const INNER_INDEX_MASK: bv32 := 0x003f_f000
  const PAGE_OFFSET_MASK: bv32 := 0x0000_0fff
  const PAGE_TABLE_LENGTH: nat := 1024
  const PAGE_SIZE: nat := 4096

  type Index = i: int | 0 <= i < 1024
  datatype Page = Page(outer: Index, inner: Index)
  datatype LogicalAddress = LogicalAddress(outerIndex: int, innerIndex: int, pageOffset: int)

  // A region holds the addresses from base up to, but not including, pastEnd.
  datatype Region = Region(base: int, pastEnd: int)

  function GetLogicalAddress(address: bv32): (r: LogicalAddress)
    ensures 0 <= r.outerIndex < PAGE_TABLE_LENGTH
    ensures 0 <= r.innerIndex < PAGE_TABLE_LENGTH
    ensures 0 <= r.pageOffset < PAGE_SIZE
  {
    LogicalAddress(((address & OUTER_INDEX_MASK) >> 22) as int,
                   ((address & INNER_INDEX_MASK) >> 12) as int,
                   (address & PAGE_OFFSET_MASK) as int)
  }

  function PageOf(address: bv32): Page {
    var l := GetLogicalAddress(address);
    Page(l.outerIndex, l.innerIndex)
  }

  function Offset(address: bv32): (r: int)
    ensures 0 <= r < PAGE_SIZE
  {
    GetLogicalAddress(address).pageOffset
  }

  function Signed(address: bv32): int {
    if address < 0x8000_0000 then address as int else address as int - 0x1_0000_0000
  }

  predicate InRange(regions: seq<Region>, address: bv32) {
    exists k :: 0 <= k < |regions| && regions[k].base <= Signed(address) < regions[k].pastEnd
  }

  // The walk over the region list.
  method IsVirtualAddressInRange(regions: seq<Region>, address: bv32) returns (r: bool)
    ensures r == InRange(regions, address)
  {
    var node := 0;
    while node < |regions|
      invariant 0 <= node <= |regions|
      invariant forall k :: 0 <= k < node ==> !(regions[k].base <= Signed(address) < regions[k].pastEnd)
    {
      if regions[node].base <= Signed(address) && Signed(address) < regions[node].pastEnd {
        return true;
      }
      node := node + 1;
    }
    return false;
  }

  function GetPhysicalAddress(frame: int, offset: int): int {
    frame * PAGE_SIZE + offset
  }

  /** One access as the simulator sees it. */
  datatype Reference = Reference(address: bv32, inRange: bool, page: Page, offset: int)

  function Refer(regions: seq<Region>, address: bv32): (r: Reference)
    ensures 0 <= r.offset < PAGE_SIZE
  {
    Reference(address, InRange(regions, address), PageOf(address), Offset(address))
  }

  function References(regions: seq<Region>, trace: seq<bv32>): seq<Reference> {
    seq(|trace|, i requires 0 <= i < |trace| => Refer(regions, trace[i]))
  }

  lemma SameWord(x: bv32, y: bv32)
    requires x as int == y as int
    ensures x == y
  {
    assert (x as int) as bv32 == x;
    assert (y as int) as bv32 == y;
  }

  lemma Reassemble(a: bv32)
    ensures a == (((a & OUTER_INDEX_MASK) >> 22) << 22) | (((a & INNER_INDEX_MASK) >> 12) << 12)
                 | (a & PAGE_OFFSET_MASK)
  {
  }

  /** Page and offset together lose nothing: two addresses that agree on both are the same address. */
  lemma SplitIsInjective(a: bv32, b: bv32)
    requires GetLogicalAddress(a) == GetLogicalAddress(b)
    ensures a == b
  {
    SameWord((a & OUTER_INDEX_MASK) >> 22, (b & OUTER_INDEX_MASK) >> 22);
    SameWord((a & INNER_INDEX_MASK) >> 12, (b & INNER_INDEX_MASK) >> 12);
    SameWord(a & PAGE_OFFSET_MASK, b & PAGE_OFFSET_MASK);
    Reassemble(a);
    Reassemble(b);
  }

  lemma SamePlace(a: bv32, b: bv32)
    requires PageOf(a) == PageOf(b) && Offset(a) == Offset(b)
    ensures a == b
  {
    SplitIsInjective(a, b);
  }

  /** A physical address determines its frame and its offset. */
  lemma PhysicalIsInjective(f: int, x: int, g: int, y: int)
    requires 0 <= x < PAGE_SIZE && 0 <= y < PAGE_SIZE
    requires GetPhysicalAddress(f, x) == GetPhysicalAddress(g, y)
    ensures f == g && x == y
  {
  }

  // ---------- Addresses of pages ----------

  lemma ShiftedParts(x: bv32)
    requires x < 1024
    ensures ((x << 12) & OUTER_INDEX_MASK) >> 22 == 0
    ensures ((x << 12) & INNER_INDEX_MASK) >> 12 == x
    ensures x << 12 < 0x8000_0000
  {
  }

  lemma PageOfShifted(x: bv32)
    requires x < 1024
    ensures 0 <= x as int < 1024 && PageOf(x << 12) == Page(0, x as int)
  {
    ShiftedParts(x);
    assert GetLogicalAddress(x << 12).outerIndex == 0;
    assert GetLogicalAddress(x << 12).innerIndex == x as int;
  }

  lemma ShiftedValue(x: bv32)
    requires x < 1024
    ensures (x << 12) as int == 4096 * x as int
  {
  }

  lemma Successor(x: bv32)
    requires x < 1024
    ensures (x + 1) as int == x as int + 1
  {
  }

  lemma SmallWord(x: bv32)
    requires x as int < 1024
    ensures x < 1024
  {
  }

  // The word for k, counted up; unlike a conversion it is easy to reason about.
  function Word(k: nat): bv32 {
    if k == 0 then 0 else Word(k - 1) + 1
  }

  lemma {:induction false} WordValue(k: nat)
    requires k < 1024
    ensures Word(k) as int == k && Word(k) < 1024
  {
    if k > 0 {
      WordValue(k - 1);
      Successor(Word(k - 1));
      SmallWord(Word(k));
    }
  }

  // The first address of page (0, k), which is 4096 k.
  function AddressOf(k: Index): bv32 {
    Word(k) << 12
  }

  // The pages with outer index 0.
  const LOW_REGION := Region(0, 0x40_0000)

  lemma SignedOfShifted(x: bv32)
    requires x < 1024
    ensures Signed(x << 12) == 4096 * x as int
  {
    ShiftedParts(x);
    ShiftedValue(x);
  }

  lemma InLowRegion(a: bv32)
    requires 0 <= Signed(a) < 0x40_0000
    ensures InRange([LOW_REGION], a)
  {
    hide Signed;
    assert [LOW_REGION][0] == LOW_REGION;
  }

  /** Page (0, k) is the page of address 4096 k, which lies in the region. */
  lemma PageOfAddress(k: Index)
    ensures PageOf(AddressOf(k)) == Page(0, k) && Signed(AddressOf(k)) == 4096 * k
    ensures InRange([LOW_REGION], AddressOf(k))
  {
    hide PageOf, Signed, Word, InRange;
    WordValue(k);
    PageOfShifted(Word(k));
    SignedOfShifted(Word(k));
    InLowRegion(AddressOf(k));
  }

  // ---------- The split in numbers ----------

  function WithOuter(o: bv32, rest: bv32): bv32 { (o << 22) | rest }

  function WithInner(i: bv32, f: bv32): bv32 { (i << 12) | f }

  lemma OuterPart(o: bv32, rest: bv32)
    requires o < 1024 && rest < 0x40_0000
    ensures ((o << 22) | rest) as int == 4194304 * o as int + rest as int
  {
  }

  lemma InnerPart(i: bv32, f: bv32)
    requires i < 1024 && f < 4096
    ensures ((i << 12) | f) as int == 4096 * i as int + f as int
  {
  }

  lemma InnerIsSmall(i: bv32, f: bv32)
    requires i < 1024 && f < 4096
    ensures (i << 12) | f < 0x40_0000
  {
  }

  lemma PartsAreSmall(a: bv32)
    ensures (a & OUTER_INDEX_MASK) >> 22 < 1024
    ensures (a & INNER_INDEX_MASK) >> 12 < 1024
    ensures a & PAGE_OFFSET_MASK < 4096
  {
  }

  lemma UpperHalf(a: bv32)
    ensures (a & OUTER_INDEX_MASK) >> 22 < 512 <==> a < 0x8000_0000
  {
  }

  lemma PutTogether(a: bv32)
    ensures a == WithOuter((a & OUTER_INDEX_MASK) >> 22, WithInner((a & INNER_INDEX_MASK) >> 12, a & PAGE_OFFSET_MASK))
  {
  }

  lemma OuterValue(o: bv32, rest: bv32)
    requires o < 1024 && rest < 0x40_0000
    ensures WithOuter(o, rest) as int == 4194304 * o as int + rest as int
  {
    OuterPart(o, rest);
  }

  lemma InnerValue(i: bv32, f: bv32)
    requires i < 1024 && f < 4096
    ensures WithInner(i, f) as int == 4096 * i as int + f as int
  {
    InnerPart(i, f);
  }

  lemma InnerBelow(i: bv32, f: bv32)
    requires i < 1024 && f < 4096
    ensures WithInner(i, f) < 0x40_0000
  {
    InnerIsSmall(i, f);
  }

  lemma NumberOfParts(o: bv32, i: bv32, f: bv32)
    requires o < 1024 && i < 1024 && f < 4096
    ensures WithOuter(o, WithInner(i, f)) as int == 4194304 * o as int + 4096 * i as int + f as int
  {
    hide WithOuter, WithInner;
    InnerValue(i, f);
    InnerBelow(i, f);
    OuterValue(o, WithInner(i, f));
  }

  lemma Parts(a: bv32) returns (o: bv32, i: bv32, f: bv32)
    ensures o < 1024 && i < 1024 && f < 4096 && a == WithOuter(o, WithInner(i, f))
    ensures GetLogicalAddress(a) == LogicalAddress(o as int, i as int, f as int)
  {
    hide WithOuter, WithInner;
    PartsAreSmall(a);
    PutTogether(a);
    o, i, f := (a & OUTER_INDEX_MASK) >> 22, (a & INNER_INDEX_MASK) >> 12, a & PAGE_OFFSET_MASK;
  }

  /** The outer index counts 4 MiB, the inner index pages, and the offset bytes. */
  lemma SplitInNumbers(a: bv32)
    ensures var l := GetLogicalAddress(a);
            a as int == 4194304 * l.outerIndex + 4096 * l.innerIndex + l.pageOffset
  {
    hide *;
    var o, i, f := Parts(a);
    NumberOfParts(o, i, f);
  }

  /** So the offset is the address modulo 4096, and the two indices together number its page. */
  lemma PageAndOffset(a: bv32)
    ensures Offset(a) == a as int % 4096 && PageOf(a).outer * 1024 + PageOf(a).inner == a as int / 4096
  {
    SplitInNumbers(a);
    var l := GetLogicalAddress(a);
    hide GetLogicalAddress;
    NumbersOf(a as int, 1024 * l.outerIndex + l.innerIndex, l.pageOffset);
  }

  lemma NumbersOf(x: int, page: int, offset: int)
    requires x == 4096 * page + offset && 0 <= offset < 4096
    ensures x / 4096 == page && x % 4096 == offset
  {
  }

  lemma BelowHalf(o: bv32)
    requires o < 1024
    ensures 0 <= o as int < 1024 && (o < 512 <==> o as int < 512)
  {
  }

  /** An address is compared as the signed number with the same 32 bits. */
  lemma SignedInNumbers(a: bv32)
    ensures -0x8000_0000 <= Signed(a) < 0x8000_0000
    ensures Signed(a) == a as int || Signed(a) == a as int - 0x1_0000_0000
  {
    SplitInNumbers(a);
    PartsAreSmall(a);
    UpperHalf(a);
    BelowHalf((a & OUTER_INDEX_MASK) >> 22);
    SignedFromIndex(a, GetLogicalAddress(a));
  }

  lemma SignedFromIndex(a: bv32, l: LogicalAddress)
    requires a as int == 4194304 * l.outerIndex + 4096 * l.innerIndex + l.pageOffset
    requires 0 <= l.outerIndex < 1024 && 0 <= l.innerIndex < 1024 && 0 <= l.pageOffset < 4096
    requires l.outerIndex < 512 <==> a < 0x8000_0000
    ensures -0x8000_0000 <= Signed(a) < 0x8000_0000
    ensures Signed(a) == a as int || Signed(a) == a as int - 0x1_0000_0000
  {
  }

  /** A region holds its base and not its end. */
  lemma RegionEnds(a: bv32, other: int)
    ensures InRange([Region(Signed(a), other)], a) <==> Signed(a) < other
    ensures !InRange([Region(other, Signed(a))], a)
  {
    hide Signed;
    assert [Region(Signed(a), other)][0] == Region(Signed(a), other);
  }
}
