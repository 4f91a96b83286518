/** The simulator: address translation, the FIFO loop over a frame table and the LRU
    loop over frames and timestamps, tied to Fifo and Lru. */
module PagingSim {
  import opened Pages
  import opened EmptyMark
  import Lru
  import Fifo

  /** Integer division that rounds toward zero. */
  function AddressToPage(address: int, pageSize: nat): int
    requires pageSize >= 1
  {
    if address >= 0 then address / pageSize else -(-address / pageSize)
  }

  function PagesOf(addresses: seq<int>, pageSize: nat): (pages: seq<int>)
    requires pageSize >= 1
    ensures |pages| == |addresses|
    ensures forall i :: 0 <= i < |pages| ==> pages[i] == AddressToPage(addresses[i], pageSize)
  {
    seq(|addresses|, i requires 0 <= i < |addresses| => AddressToPage(addresses[i], pageSize))
  }

  lemma DivisionBounds(a: nat, s: nat, q: nat)
    requires s >= 1
    ensures a / s == q <==> q * s <= a < q * s + s
  {
    var d := a / s;
    assert a == d * s + a % s;
    if d < q {
      assert (d + 1) * s <= q * s;
    } else if d > q {
      assert (q + 1) * s <= d * s;
    }
  }

  lemma QuotientIs(a: nat, s: nat, q: int, m: int)
    requires s >= 1 && m == q * s
    ensures a / s == q <==> q >= 0 && m <= a < m + s
  {
    if q >= 0 {
      DivisionBounds(a, s, q);
    }
  }

  lemma AtLeastOnce(q: nat, s: nat)
    requires q >= 1
    ensures q * s >= s
  {
    assert q * s == (q - 1) * s + s;
  }

  lemma NegativeProduct(q: int, s: nat)
    ensures (-q) * s == -(q * s)
  {
  }

  /** Which addresses translate to a page: the page's own bytes, two pages of bytes
      around zero for page 0, and the bytes above for a negative page. */
  lemma PageBytes(address: int, pageSize: nat, page: int)
    requires pageSize >= 1
    ensures AddressToPage(address, pageSize) == page <==>
            if page > 0 then page * pageSize <= address < page * pageSize + pageSize
            else if page == 0 then 0 - pageSize < address < pageSize
            else page * pageSize - pageSize < address <= page * pageSize
  {
    var m := page * pageSize;
    NegativeProduct(page, pageSize);
    if page > 0 { AtLeastOnce(page, pageSize); }
    if page < 0 { AtLeastOnce(-page, pageSize); }
    if address >= 0 {
      QuotientIs(address, pageSize, page, m);
    } else {
      QuotientIs(-address, pageSize, -page, -m);
    }
  }

  /** The addresses the simulator cannot handle: their page number is the mark of an
      empty frame. */
  lemma EmptyMarkAddresses(address: int, pageSize: nat)
    requires pageSize >= 1
    ensures AddressToPage(address, pageSize) == EMPTY <==> 0 - 2 * pageSize < address <= 0 - pageSize
  {
    PageBytes(address, pageSize, EMPTY);
  }

  /** Such an address, referenced once with one empty frame: a hit in both loops, and a fault of
      both algorithms. */
  lemma FalseHitAddress()
    ensures var pages := PagesOf([-4096], 4096);
            && FifoFaults(pages, 1) == [false] && Fifo.Trace(pages, 1) == [true]
            && LruFaults(pages, 1) == [false] && Lru.Trace(pages, 1) == [true]
  {
    hide FifoFaults, LruFaults, Fifo.Trace, Lru.Trace;
    assert PagesOf([-4096], 4096) == [EMPTY];
    FalseHit();
  }

  function AddressOf(page: int, pageSize: nat): int {
    page * pageSize + pageSize / 2
  }

  /** Translating a generated address gives its page back, except for the negative
      pages of a page size above one. */
  lemma AddressRoundTrip(page: int, pageSize: nat)
    requires pageSize >= 1
    ensures AddressToPage(AddressOf(page, pageSize), pageSize) == page <==> page >= 0 || pageSize == 1
  {
    PageBytes(AddressOf(page, pageSize), pageSize, page);
  }

  /** A generated address has half of its page, rounded down, before it. */
  lemma MiddleOfPage(page: int, pageSize: nat)
    requires pageSize >= 1
    ensures var before := AddressOf(page, pageSize) - page * pageSize;
            2 * before <= pageSize < 2 * (before + 1)
  {
  }

  /** Fills outAddresses with one address in the middle of each page of the pattern. */
  method BuildAddressesFromPages(pattern: array<int>, count: nat, pageSize: nat, outAddresses: array<int>)
    returns (n: nat)
    requires count <= pattern.Length && count <= outAddresses.Length && pageSize >= 1
    modifies outAddresses
    ensures n == count
    ensures forall i :: 0 <= i < count ==>
              outAddresses[i] == old(pattern[i]) * pageSize + pageSize / 2
    ensures forall i :: 0 <= i < count && old(pattern[i]) >= 0 ==>
              AddressToPage(outAddresses[i], pageSize) == old(pattern[i])
    ensures outAddresses[count..] == old(outAddresses[count..])
  {
    for i := 0 to count
      invariant forall j :: 0 <= j < i ==> outAddresses[j] == AddressOf(old(pattern[j]), pageSize)
      invariant forall j :: i <= j < pattern.Length ==> pattern[j] == old(pattern[j])
      invariant outAddresses[i..] == old(outAddresses[i..])
    {
      outAddresses[i] := pattern[i] * pageSize + pageSize / 2;
    }
    forall i | 0 <= i < count && old(pattern[i]) >= 0
      ensures AddressToPage(outAddresses[i], pageSize) == old(pattern[i])
    {
      AddressRoundTrip(old(pattern[i]), pageSize);
    }
    n := count;
  }

  class FrameTable {
    const frames: array<int>
    const numFrames: nat
    var pageFaults: nat
    var pageHits: nat

    constructor (maxFrames: nat, numFrames: nat)
      requires 1 <= numFrames <= maxFrames
      ensures fresh(frames) && frames.Length == maxFrames && this.numFrames == numFrames
      ensures forall i :: 0 <= i < maxFrames ==> frames[i] == EMPTY
      ensures pageFaults == 0 && pageHits == 0
    {
      this.numFrames := numFrames;
      pageFaults, pageHits := 0, 0;
      frames := new int[maxFrames](_ => EMPTY);
    }

    /** The first frame holding the page, or -1. */
    method FindPage(page: int) returns (idx: int)
      requires numFrames <= frames.Length
      ensures idx == -1 <==> page !in frames[..numFrames]
      ensures idx != -1 ==> 0 <= idx < numFrames && frames[idx] == page && page !in frames[..idx]
    {
      for i := 0 to numFrames
        invariant page !in frames[..i]
      {
        if frames[i] == page {
          assert frames[..numFrames][i] == page;
          return i;
        }
      }
      return -1;
    }
  }

  /** The frame table and circular index hold the queue q: reading the filled frames
      from the index, and wrapping around, gives the load order. */
  ghost predicate HoldsQueue(frames: seq<int>, k: nat, filled: nat, next: nat, q: seq<int>) {
    && filled <= k <= |frames| && next <= filled && (filled == k ==> next < k)
    && (filled < k ==> next == 0)
    && q == frames[next..filled] + frames[..next]
    && forall f :: filled <= f < |frames| ==> frames[f] == EMPTY
  }

  /** A page number is in some frame when it is resident, or when it is the mark and a frame is
      empty. */
  lemma ResidentInFrames(frames: seq<int>, k: nat, filled: nat, next: nat, q: seq<int>, page: int)
    requires HoldsQueue(frames, k, filled, next, q)
    ensures page in frames[..k] <==> page in q || (page == EMPTY && filled < k)
  {
    assert frames[..k] == frames[..next] + frames[next..filled] + frames[filled..k];
    if filled < k {
      assert frames[filled..k][0] == EMPTY;
    }
  }

  lemma FillFrame(frames: seq<int>, k: nat, filled: nat, next: nat, q: seq<int>, page: int)
    requires HoldsQueue(frames, k, filled, next, q) && filled < k && page !in q
    ensures HoldsQueue(frames[filled := page], k, filled + 1, next, Fifo.Load(q, page, k))
  {
    var frames' := frames[filled := page];
    assert frames'[0..filled + 1] == frames[0..filled] + [page];
  }

  lemma ReplaceOldest(frames: seq<int>, k: nat, next: nat, q: seq<int>, page: int, next': nat)
    requires 1 <= k && HoldsQueue(frames, k, k, next, q) && page !in q
    requires next' == if next + 1 == k then 0 else next + 1
    ensures HoldsQueue(frames[next := page], k, k, next', Fifo.Load(q, page, k))
  {
    var frames', a, b := frames[next := page], frames[..next], frames[next + 1..k];
    assert q == [frames[next]] + b + a;
    assert q[1..] + [page] == b + (a + [page]);
    assert frames'[..next + 1] == a + [page] && frames'[next + 1..k] == b;
    if next + 1 == k {
      assert b == [] && frames'[0..k] + frames'[..0] == a + [page];
    }
  }

  lemma WrapAround(next: nat, k: nat)
    requires next < k
    ensures (next + 1) % k == if next + 1 == k then 0 else next + 1
  {
  }

  lemma PagesSnoc(refs: seq<int>, i: nat, pageSize: nat)
    requires i < |refs| && pageSize >= 1
    ensures PagesOf(refs[..i + 1], pageSize) == PagesOf(refs[..i], pageSize) + [AddressToPage(refs[i], pageSize)]
  {
  }

  lemma {:induction false} FifoSnoc(pages: seq<int>, page: int, k: nat)
    requires k >= 1
    ensures Fifo.Queue(pages + [page], k) == Fifo.Load(Fifo.Queue(pages, k), page, k)
    ensures Fifo.Trace(pages + [page], k) == Fifo.Trace(pages, k) + [page !in Fifo.Queue(pages, k)]
  {
    assert (pages + [page])[..|pages|] == pages;
  }

  /** The frames hold FIFO's queue after the references that reach it. */
  ghost predicate HoldsLoads(frames: seq<int>, k: nat, filled: nat, next: nat, pages: seq<int>)
    requires k >= 1
  {
    HoldsQueue(frames, k, filled, next, Fifo.Queue(Effective(pages, k), k))
  }

  /** One access of the FIFO loop. */
  method FifoAccess(ft: FrameTable, filled: nat, next: nat, page: int, ghost pages: seq<int>)
    returns (filled': nat, next': nat, hit: bool)
    requires ft.numFrames >= 1
    requires HoldsLoads(ft.frames[..], ft.numFrames, filled, next, pages)
    modifies ft, ft.frames
    ensures hit <==> page in Fifo.Queue(Effective(pages, ft.numFrames), ft.numFrames)
                     || (page == EMPTY && filled < ft.numFrames)
    ensures HoldsLoads(ft.frames[..], ft.numFrames, filled', next', pages + [page])
    ensures FifoFaults(pages + [page], ft.numFrames) == FifoFaults(pages, ft.numFrames) + [!hit]
    ensures ft.pageHits == old(ft.pageHits) + (if hit then 1 else 0)
    ensures ft.pageFaults == old(ft.pageFaults) + (if hit then 0 else 1)
  {
    hide Fifo.Queue, Effective, FifoFaults, PageSet, Fifo.Load;
    ghost var k, frames := ft.numFrames, ft.frames[..];
    ghost var q := Fifo.Queue(Effective(pages, k), k);
    ResidentInFrames(frames, k, filled, next, q, page);
    filled', next' := filled, next;
    var idx := ft.FindPage(page);
    hit := idx != -1;
    FifoStep(pages, page, k, filled, hit);
    if idx != -1 {
      ft.pageHits := ft.pageHits + 1;
    } else {
      ft.pageFaults := ft.pageFaults + 1;
      if filled < ft.numFrames {
        ft.frames[filled] := page;
        filled' := filled + 1;
        FillFrame(frames, k, filled, next, q, page);
        assert ft.frames[..] == frames[filled := page];
      } else {
        ft.frames[next] := page;
        next' := (next + 1) % ft.numFrames;
        WrapAround(next, k);
        ReplaceOldest(frames, k, next, q, page, next');
        assert ft.frames[..] == frames[next := page];
      }
    }
  }

  /** The queue after one more reference, and whether it hit, in terms of the references so far. */
  lemma {:induction false} FifoStep(pages: seq<int>, page: int, k: nat, filled: nat, hit: bool)
    requires k >= 1
    requires var q := Fifo.Queue(Effective(pages, k), k);
             filled == |q| && (hit <==> page in q || (page == EMPTY && filled < k))
    ensures var q := Fifo.Queue(Effective(pages, k), k);
            Fifo.Queue(Effective(pages + [page], k), k) == if hit then q else Fifo.Load(q, page, k)
    ensures FifoFaults(pages + [page], k) == FifoFaults(pages, k) + [!hit]
  {
    hide Effective, FifoFaults, Fifo.Queue, Fifo.Trace, PageSet;
    var eff := Effective(pages, k);
    EffectiveSnoc(pages, page, k);
    Fifo.NotFull(eff, k);
    FifoSnoc(eff, page, k);
  }

  lemma NoReferences(pageSize: nat, k: nat)
    requires pageSize >= 1 && k >= 1
    ensures PagesOf([], pageSize) == [] && Count([]) == 0
    ensures FifoFaults([], k) == [] == LruFaults([], k)
  {
  }

  lemma HoldsNothing(frames: seq<int>, k: nat)
    requires 1 <= k <= |frames| && forall f :: 0 <= f < |frames| ==> frames[f] == EMPTY
    ensures HoldsLoads(frames, k, 0, 0, [])
  {
  }

  /** The FIFO loop. Its faults are those of the queue of the references that do not find the
      empty mark, and so those of FIFO exactly when the mark comes only after the frames are full. */
  method RunFifo(refs: seq<int>, maxFrames: nat, numFrames: nat, pageSize: nat)
    returns (ft: FrameTable, filled: nat, next: nat, trace: seq<bool>)
    requires 1 <= numFrames <= maxFrames && pageSize >= 1
    ensures fresh(ft) && trace == FifoFaults(PagesOf(refs, pageSize), numFrames)
    ensures trace == Fifo.Trace(PagesOf(refs, pageSize), numFrames)
       <==> MarkAfterFull(PagesOf(refs, pageSize), numFrames)
    ensures ft.pageFaults == Count(trace) && ft.pageHits + ft.pageFaults == |refs|
    ensures HoldsLoads(ft.frames[..], numFrames, filled, next, PagesOf(refs, pageSize))
  {
    NoReferences(pageSize, numFrames);
    hide PagesOf, FifoFaults, HoldsLoads, MarkAfterFull, Count, AddressToPage;
    ft := new FrameTable(maxFrames, numFrames);
    HoldsNothing(ft.frames[..], numFrames);
    next, filled, trace := 0, 0, [];
    ghost var pages: seq<int> := [];
    assert refs[..0] == [];
    for i := 0 to |refs|
      invariant pages == PagesOf(refs[..i], pageSize)
      invariant fresh(ft) && fresh(ft.frames) && ft.numFrames == numFrames
      invariant trace == FifoFaults(pages, numFrames)
      invariant ft.pageFaults == Count(trace) && ft.pageHits + ft.pageFaults == i
      invariant HoldsLoads(ft.frames[..], numFrames, filled, next, pages)
    {
      var page := AddressToPage(refs[i], pageSize);
      var hit;
      filled, next, hit := FifoAccess(ft, filled, next, page, pages);
      CountSnoc(trace, !hit);
      trace := trace + [!hit];
      PagesSnoc(refs, i, pageSize);
      pages := pages + [page];
    }
    assert refs[..|refs|] == refs;
    FifoExactly(PagesOf(refs, pageSize), numFrames);
  }

  /** The filled frames hold the resident pages, each stamped with its last use. */
  ghost predicate HoldsResidents(frames: seq<int>, lastUsed: seq<int>, k: nat, filled: nat, pages: seq<int>)
    requires k >= 1
  {
    && filled <= k <= |frames| == |lastUsed|
    && Distinct(frames[..filled])
    && PageSet(frames[..filled]) == PageSet(Lru.Residents(Effective(pages, k), k))
    && AllStamped(frames, lastUsed, filled, pages)
    && forall f :: filled <= f < |frames| ==> frames[f] == EMPTY
  }

  ghost predicate AllStamped(frames: seq<int>, lastUsed: seq<int>, n: nat, pages: seq<int>) {
    n <= |frames| == |lastUsed| && forall f :: 0 <= f < n ==> Stamped(frames[f], lastUsed[f], pages)
  }

  ghost predicate Stamped(page: int, stamp: int, pages: seq<int>) {
    page in pages && stamp == Lru.LastUse(pages, page)
  }

  lemma StampedSnoc(page: int, stamp: int, pages: seq<int>, x: int)
    requires if page == x then stamp == |pages| else Stamped(page, stamp, pages)
    ensures Stamped(page, stamp, pages + [x])
  {
    assert (pages + [x])[..|pages|] == pages;
  }

  lemma {:induction false} ResidentsSnoc(pages: seq<int>, x: int, k: nat)
    requires k >= 1
    ensures Lru.Residents(pages + [x], k) == Lru.Touch(Lru.Residents(pages, k), x, k)
    ensures Lru.Trace(pages + [x], k) == Lru.Trace(pages, k) + [x !in Lru.Residents(pages, k)]
  {
    assert (pages + [x])[..|pages|] == pages;
  }

  lemma FilledCount(frames: seq<int>, lastUsed: seq<int>, k: nat, filled: nat, pages: seq<int>)
    requires k >= 1 && HoldsResidents(frames, lastUsed, k, filled, pages)
    ensures filled == |Lru.Residents(Effective(pages, k), k)|
    ensures filled < k <==> |PageSet(Effective(pages, k))| < k
  {
    hide Effective;
    var eff := Effective(pages, k);
    DistinctCard(frames[..filled]);
    Lru.ResidentCount(eff, k);
    DistinctCard(Lru.Residents(eff, k));
  }

  lemma ResidentIffFramed(frames: seq<int>, lastUsed: seq<int>, k: nat, filled: nat, pages: seq<int>, x: int)
    requires k >= 1 && HoldsResidents(frames, lastUsed, k, filled, pages)
    ensures filled <= k
    ensures x in Lru.Residents(Effective(pages, k), k) <==> x in frames[..filled]
    ensures x in frames[..k] <==> x in frames[..filled] || (x == EMPTY && filled < k)
  {
    assert frames[..k] == frames[..filled] + frames[filled..k];
    if filled < k {
      assert frames[filled..k][0] == EMPTY;
    }
    assert x in PageSet(frames[..filled]) <==> x in PageSet(Lru.Residents(Effective(pages, k), k));
  }

  /** The mark is not resident while a frame is empty. */
  lemma MarkNotResident(frames: seq<int>, lastUsed: seq<int>, k: nat, filled: nat, pages: seq<int>)
    requires k >= 1 && HoldsResidents(frames, lastUsed, k, filled, pages) && filled < k
    ensures EMPTY !in frames[..filled]
  {
    hide Effective, Lru.Residents;
    FilledCount(frames, lastUsed, k, filled, pages);
    MarkWaits(pages, k);
    ResidentUsed(Effective(pages, k), k, EMPTY);
    ResidentIffFramed(frames, lastUsed, k, filled, pages, EMPTY);
  }

  /** No two filled frames have the same stamp. */
  lemma StampsDiffer(frames: seq<int>, lastUsed: seq<int>, k: nat, filled: nat, pages: seq<int>, f: nat, g: nat)
    requires k >= 1 && HoldsResidents(frames, lastUsed, k, filled, pages) && f < g < filled
    ensures lastUsed[f] != lastUsed[g]
  {
    hide Lru.Residents, PageSet;
    assert Stamped(frames[f], lastUsed[f], pages) && Stamped(frames[g], lastUsed[g], pages);
    assert frames[..filled][f] == frames[f] && frames[..filled][g] == frames[g];
  }

  /** Stamps after writing page x with the present time into frame slot. */
  lemma StampAll(frames: seq<int>, lastUsed: seq<int>, n: nat, pages: seq<int>, x: int, slot: nat)
    requires slot < n <= |frames| == |lastUsed|
    requires forall f :: 0 <= f < n && f != slot ==> Stamped(frames[f], lastUsed[f], pages) && frames[f] != x
    ensures AllStamped(frames[slot := x], lastUsed[slot := |pages|], n, pages + [x])
  {
    var frames', lastUsed' := frames[slot := x], lastUsed[slot := |pages|];
    forall f | 0 <= f < n
      ensures Stamped(frames'[f], lastUsed'[f], pages + [x])
    {
      StampedSnoc(frames'[f], lastUsed'[f], pages, x);
    }
  }

  lemma HitStamps(frames: seq<int>, lastUsed: seq<int>, k: nat, filled: nat, pages: seq<int>, slot: nat)
    requires k >= 1 && HoldsResidents(frames, lastUsed, k, filled, pages) && slot < filled
    ensures HoldsResidents(frames, lastUsed[slot := |pages|], k, filled, pages + [frames[slot]])
  {
    hide Lru.Residents, PageSet, Stamped, Effective;
    var x := frames[slot];
    assert frames[..filled][slot] == x;
    InPageSet(frames[..filled], slot);
    FilledCount(frames, lastUsed, k, filled, pages);
    if filled < k {
      MarkNotResident(frames, lastUsed, k, filled, pages);
    }
    EffectiveSnoc(pages, x, k);
    HitSet(Effective(pages, k), x, k);
    assert frames[slot := x] == frames;
    assert forall f :: 0 <= f < filled && f != slot ==> frames[..filled][f] != frames[..filled][slot];
    StampAll(frames, lastUsed, filled, pages, x, slot);
  }

  /** A reference that finds the mark in an empty frame changes neither residents nor stamps. */
  lemma FalseHitStamps(frames: seq<int>, lastUsed: seq<int>, k: nat, filled: nat, pages: seq<int>, slot: nat)
    requires k >= 1 && HoldsResidents(frames, lastUsed, k, filled, pages) && filled <= slot < k
    ensures HoldsResidents(frames, lastUsed[slot := |pages|], k, filled, pages + [EMPTY])
  {
    hide Lru.Residents, PageSet, Stamped, Effective;
    FilledCount(frames, lastUsed, k, filled, pages);
    MarkNotResident(frames, lastUsed, k, filled, pages);
    EffectiveSnoc(pages, EMPTY, k);
    var lastUsed' := lastUsed[slot := |pages|];
    forall f | 0 <= f < filled ensures Stamped(frames[f], lastUsed'[f], pages + [EMPTY]) {
      assert frames[..filled][f] == frames[f];
      StampedSnoc(frames[f], lastUsed[f], pages, EMPTY);
    }
  }

  lemma InPageSet(s: seq<int>, i: nat)
    requires i < |s|
    ensures s[i] in PageSet(s)
  {
  }

  /** A hit leaves the same pages resident. */
  lemma HitSet(pages: seq<int>, x: int, k: nat)
    requires k >= 1 && x in PageSet(Lru.Residents(pages, k))
    ensures PageSet(Lru.Residents(pages + [x], k)) == PageSet(Lru.Residents(pages, k))
  {
    var r := Lru.Residents(pages, k);
    ResidentsSnoc(pages, x, k);
    Lru.ResidentCount(pages, k);
    WithoutDistinct(r, x);
    PageSetAppend([x], Without(r, x));
  }

  lemma FillStamps(frames: seq<int>, lastUsed: seq<int>, k: nat, filled: nat, pages: seq<int>, x: int)
    requires k >= 1 && HoldsResidents(frames, lastUsed, k, filled, pages)
    requires filled < k && x != EMPTY && x !in Lru.Residents(Effective(pages, k), k)
    ensures HoldsResidents(frames[filled := x], lastUsed[filled := |pages|], k, filled + 1, pages + [x])
  {
    hide Effective, Lru.Residents, PageSet, Stamped;
    var eff := Effective(pages, k);
    EffectiveSnoc(pages, x, k);
    FilledCount(frames, lastUsed, k, filled, pages);
    FillSet(eff, k, x);
    ResidentIffFramed(frames, lastUsed, k, filled, pages, x);
    var before := frames[..filled];
    assert frames[filled := x][..filled + 1] == before + [x];
    PageSetSnoc(before, x);
    assert forall f :: 0 <= f < filled ==> before[f] != x;
    StampAll(frames, lastUsed, filled + 1, pages, x, filled);
  }

  /** The frame with the least stamp holds the least recently used resident page. */
  lemma VictimIsLast(frames: seq<int>, lastUsed: seq<int>, k: nat, pages: seq<int>, victim: nat)
    requires k >= 1 && HoldsResidents(frames, lastUsed, k, k, pages) && victim < k
    requires forall f :: 0 <= f < k ==> lastUsed[victim] <= lastUsed[f]
    ensures var r := Lru.Residents(Effective(pages, k), k);
            |r| == k && frames[victim] == r[k - 1]
  {
    hide Effective;
    var r := Lru.Residents(Effective(pages, k), k);
    FilledCount(frames, lastUsed, k, k, pages);
    var last, v := r[k - 1], frames[victim];
    StampOf(frames, lastUsed, k, pages, v);
    StampOf(frames, lastUsed, k, pages, last);
    assert frames[..k][victim] == v;
    assert Lru.LastUse(pages, v) <= Lru.LastUse(pages, last);
    LastInList(pages, k, v);
  }

  /** The stamp of a resident page is its last use, in whichever frame it is. */
  lemma StampOf(frames: seq<int>, lastUsed: seq<int>, k: nat, pages: seq<int>, p: int)
    requires k >= 1 && HoldsResidents(frames, lastUsed, k, k, pages)
    requires p in Lru.Residents(Effective(pages, k), k) || p in frames[..k]
    ensures p in Lru.Residents(Effective(pages, k), k) && p in pages
    ensures exists f :: 0 <= f < k && frames[f] == p && lastUsed[f] == Lru.LastUse(pages, p)
    ensures forall f :: 0 <= f < k && frames[f] == p ==> lastUsed[f] == Lru.LastUse(pages, p)
  {
    hide Effective;
    assert p in PageSet(Lru.Residents(Effective(pages, k), k)) && p in PageSet(frames[..k]);
    var f :| 0 <= f < k && frames[..k][f] == p;
    assert Stamped(frames[f], lastUsed[f], pages);
    forall g | 0 <= g < k && frames[g] == p
      ensures lastUsed[g] == Lru.LastUse(pages, p)
    {
      assert Stamped(frames[g], lastUsed[g], pages);
    }
  }

  lemma LastInList(pages: seq<int>, k: nat, v: int)
    requires k >= 1
    requires var r := Lru.Residents(Effective(pages, k), k);
             |r| == k && v in r && v in pages && r[k - 1] in pages
             && Lru.LastUse(pages, v) <= Lru.LastUse(pages, r[k - 1])
    ensures v == Lru.Residents(Effective(pages, k), k)[k - 1]
  {
    hide Lru.Residents, Lru.Stack, Lru.LastUse, Effective;
    var eff := Effective(pages, k);
    Lru.StackProperty(eff, k);
    RecencyKept(pages, k);
    var a :| 0 <= a < k && Lru.Residents(eff, k)[a] == v;
    assert a < k - 1 ==> UsedLater(pages, Lru.Stack(eff)[a], Lru.Stack(eff)[k - 1]);
  }

  lemma EvictLast(r: seq<int>, x: int)
    requires r != [] && Distinct(r) && x !in r
    ensures PageSet([x] + r[..|r| - 1]) == PageSet(r) - {r[|r| - 1]} + {x}
  {
    var n := |r| - 1;
    assert r == r[..n] + [r[n]];
    PageSetSnoc(r[..n], r[n]);
    PageSetAppend([x], r[..n]);
  }

  lemma ReplaceSet(frames: seq<int>, slot: nat, x: int)
    requires slot < |frames| && Distinct(frames) && x !in frames
    ensures Distinct(frames[slot := x])
    ensures PageSet(frames[slot := x]) == PageSet(frames) - {frames[slot]} + {x}
  {
    var a, b := frames[..slot], frames[slot + 1..];
    assert frames == a + [frames[slot]] + b && frames[slot := x] == a + [x] + b;
  }

  lemma EvictStamps(frames: seq<int>, lastUsed: seq<int>, k: nat, pages: seq<int>, victim: nat, x: int)
    requires k >= 1 && HoldsResidents(frames, lastUsed, k, k, pages) && victim < k
    requires forall f :: 0 <= f < k ==> lastUsed[victim] <= lastUsed[f]
    requires x !in Lru.Residents(Effective(pages, k), k)
    ensures HoldsResidents(frames[victim := x], lastUsed[victim := |pages|], k, k, pages + [x])
  {
    hide Effective, Lru.Residents, PageSet, Stamped;
    var eff := Effective(pages, k);
    FilledCount(frames, lastUsed, k, k, pages);
    EffectiveSnoc(pages, x, k);
    VictimIsLast(frames, lastUsed, k, pages, victim);
    EvictSet(frames[..k], eff, k, victim, x);
    assert frames[victim := x][..k] == frames[..k][victim := x];
    ResidentIffFramed(frames, lastUsed, k, k, pages, x);
    assert forall f :: 0 <= f < k ==> frames[..k][f] != x;
    StampAll(frames, lastUsed, k, pages, x, victim);
  }

  /** Replacing the last page of the list in its frame. */
  lemma EvictSet(frames: seq<int>, eff: seq<int>, k: nat, victim: nat, x: int)
    requires k >= 1 && |frames| == k && Distinct(frames) && victim < k
    requires var r := Lru.Residents(eff, k);
             |r| == k && PageSet(frames) == PageSet(r) && frames[victim] == r[k - 1] && x !in r
    ensures Distinct(frames[victim := x])
    ensures PageSet(frames[victim := x]) == PageSet(Lru.Residents(eff + [x], k))
  {
    var r := Lru.Residents(eff, k);
    ResidentsSnoc(eff, x, k);
    Lru.ResidentCount(eff, k);
    hide Lru.Residents;
    EvictLast(r, x);
    assert x !in PageSet(frames);
    ReplaceSet(frames, victim, x);
  }

  lemma FillSet(eff: seq<int>, k: nat, x: int)
    requires k >= 1 && |Lru.Residents(eff, k)| < k && x !in Lru.Residents(eff, k)
    ensures PageSet(Lru.Residents(eff + [x], k)) == PageSet(Lru.Residents(eff, k)) + {x}
  {
    ResidentsSnoc(eff, x, k);
    hide Lru.Residents;
    PageSetAppend([x], Lru.Residents(eff, k));
  }

  /** One access of the LRU loop, at time clock. */
  method LruAccess(frames: array<int>, lastUsed: array<int>, numFrames: nat, filled: nat, page: int, clock: nat,
                   ghost pages: seq<int>)
    returns (filled': nat, hit: bool)
    requires frames != lastUsed && numFrames >= 1 && clock == |pages|
    requires HoldsResidents(frames[..], lastUsed[..], numFrames, filled, pages)
    modifies frames, lastUsed
    ensures hit <==> page in Lru.Residents(Effective(pages, numFrames), numFrames)
                     || (page == EMPTY && filled < numFrames)
    ensures HoldsResidents(frames[..], lastUsed[..], numFrames, filled', pages + [page])
  {
    hide Lru.Residents, PageSet, Stamped, Effective;
    ghost var fs, ls := frames[..], lastUsed[..];
    ResidentIffFramed(fs, ls, numFrames, filled, pages, page);
    filled' := filled;
    var idx := FrameOf(frames, numFrames, page);
    hit := idx != -1;
    if idx != -1 {
      FoundAt(fs, numFrames, filled, page, idx);
      if page in fs[..filled] {
        HitStamps(fs, ls, numFrames, filled, pages, idx);
      } else {
        FalseHitStamps(fs, ls, numFrames, filled, pages, idx);
      }
      lastUsed[idx] := clock;
      assert lastUsed[..] == ls[idx := clock];
    } else if filled < numFrames {
      FillStamps(fs, ls, numFrames, filled, pages, page);
      frames[filled] := page;
      lastUsed[filled] := clock;
      filled' := filled + 1;
      assert frames[..] == fs[filled := page] && lastUsed[..] == ls[filled := clock];
    } else {
      var victim := LeastStamp(lastUsed, numFrames);
      EvictStamps(fs, ls, numFrames, pages, victim, page);
      frames[victim] := page;
      lastUsed[victim] := clock;
      assert frames[..] == fs[victim := page] && lastUsed[..] == ls[victim := clock];
    }
  }

  /** The first frame with a page is a filled one when any filled one has it. */
  lemma FoundAt(frames: seq<int>, k: nat, filled: nat, page: int, idx: nat)
    requires filled <= k <= |frames| && idx < k && frames[idx] == page && page !in frames[..idx]
    ensures page in frames[..filled] <==> idx < filled
  {
    if idx < filled {
      assert frames[..filled][idx] == page;
    } else {
      assert forall f :: 0 <= f < filled ==> frames[..idx][f] == frames[f];
    }
  }

  lemma {:induction false} LruStep(frames: seq<int>, lastUsed: seq<int>, pages: seq<int>, page: int, k: nat, filled: nat, hit: bool)
    requires k >= 1 && HoldsResidents(frames, lastUsed, k, filled, pages)
    requires hit <==> page in Lru.Residents(Effective(pages, k), k) || (page == EMPTY && filled < k)
    ensures LruFaults(pages + [page], k) == LruFaults(pages, k) + [!hit]
  {
    hide Effective, LruFaults, Lru.Residents, PageSet;
    FilledCount(frames, lastUsed, k, filled, pages);
    EffectiveSnoc(pages, page, k);
  }

  /** The LRU loop, likewise. */
  method RunLru(refs: seq<int>, maxFrames: nat, numFrames: nat, pageSize: nat)
    returns (frames: array<int>, lastUsed: array<int>, filled: nat, hits: nat, faults: nat, trace: seq<bool>)
    requires 1 <= numFrames <= maxFrames && pageSize >= 1
    ensures fresh(frames) && fresh(lastUsed) && trace == LruFaults(PagesOf(refs, pageSize), numFrames)
    ensures trace == Lru.Trace(PagesOf(refs, pageSize), numFrames)
       <==> MarkAfterFull(PagesOf(refs, pageSize), numFrames)
    ensures faults == Count(trace) && hits + faults == |refs|
    ensures HoldsResidents(frames[..], lastUsed[..], numFrames, filled, PagesOf(refs, pageSize))
  {
    NoReferences(pageSize, numFrames);
    hide PagesOf, LruFaults, Effective, MarkAfterFull, Count, AddressToPage;
    frames := new int[maxFrames](_ => EMPTY);
    lastUsed := new int[maxFrames](_ => -1);
    hits, faults, filled, trace := 0, 0, 0, [];
    var clock := 0;
    assert refs[..0] == [];
    for i := 0 to |refs|
      invariant fresh(frames) && fresh(lastUsed) && frames != lastUsed && clock == i
      invariant trace == LruFaults(PagesOf(refs[..i], pageSize), numFrames)
      invariant faults == Count(trace) && hits + faults == i
      invariant HoldsResidents(frames[..], lastUsed[..], numFrames, filled, PagesOf(refs[..i], pageSize))
    {
      hide HoldsResidents, Lru.Residents;
      var page := AddressToPage(refs[i], pageSize);
      ghost var pages, fs, ls, was := PagesOf(refs[..i], pageSize), frames[..], lastUsed[..], filled;
      PagesSnoc(refs, i, pageSize);
      var hit;
      filled, hit := LruAccess(frames, lastUsed, numFrames, filled, page, clock, pages);
      LruStep(fs, ls, pages, page, numFrames, was, hit);
      CountSnoc(trace, !hit);
      if hit {
        hits := hits + 1;
      } else {
        faults := faults + 1;
      }
      trace := trace + [!hit];
      clock := clock + 1;
    }
    assert refs[..|refs|] == refs;
    LruExactly(PagesOf(refs, pageSize), numFrames);
  }

  /** The first frame holding the page, or -1. */
  method FrameOf(frames: array<int>, numFrames: nat, page: int) returns (idx: int)
    requires numFrames <= frames.Length
    ensures idx == -1 <==> page !in frames[..numFrames]
    ensures idx != -1 ==> 0 <= idx < numFrames && frames[idx] == page && page !in frames[..idx]
  {
    idx := -1;
    for f := 0 to numFrames
      invariant idx == -1 && page !in frames[..f]
    {
      if frames[f] == page {
        assert frames[..numFrames][f] == page;
        idx := f;
        break;
      }
    }
  }

  /** The first frame with the smallest stamp. */
  method LeastStamp(lastUsed: array<int>, numFrames: nat) returns (victim: nat)
    requires 1 <= numFrames <= lastUsed.Length
    ensures victim < numFrames
    ensures forall f :: 0 <= f < numFrames ==> lastUsed[victim] <= lastUsed[f]
    ensures forall f :: 0 <= f < victim ==> lastUsed[victim] < lastUsed[f]
  {
    victim := 0;
    for f := 1 to numFrames
      invariant victim < f
      invariant forall g :: 0 <= g < f ==> lastUsed[victim] <= lastUsed[g]
      invariant forall g :: 0 <= g < victim ==> lastUsed[victim] < lastUsed[g]
    {
      if lastUsed[f] < lastUsed[victim] { victim := f; }
    }
  }
}
