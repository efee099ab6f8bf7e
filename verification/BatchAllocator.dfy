// BatchAllocator of the JSON library: pages of slots handed out in order, and
// a free list threaded through the slots that were released.

module BatchAllocator {

  /** Room for one object; while the slot is free its first word is the free-list link. */
  class Slot {
    var link: Slot?

    constructor () {
      link := null;
    }
  }

  /**
   * A page. used and end count slots from the start of the buffer; the buffer
   * has room for as many allocations as end counts slots.
   */
  class Batch {
    var next: Batch?
    var used: nat
    const end: nat
    const buffer: seq<Slot>

    /** allocateBatch */
    constructor (objectPerAllocation: nat, objectsPerPage: nat)
      ensures next == null && used == 0 && end == objectsPerPage && |buffer| == objectPerAllocation * objectsPerPage
      ensures forall i :: 0 <= i < |buffer| ==> fresh(buffer[i])
      ensures Distinct(buffer)
    {
      var slots: seq<Slot> := [];
      var size := objectPerAllocation * objectsPerPage;
      while |slots| < size
        invariant |slots| <= size
        invariant forall i :: 0 <= i < |slots| ==> fresh(slots[i])
        invariant Distinct(slots)
      {
        var slot := new Slot();
        slots := slots + [slot];
      }
      next := null;
      used := 0;
      end := objectsPerPage;
      buffer := slots;
    }
  }

  ghost predicate Distinct<T>(s: seq<T>) {
    forall i, j :: 0 <= i < j < |s| ==> s[i] != s[j]
  }

  /** The free list from `first` on runs through exactly the slots of s and then ends. */
  ghost predicate FreeList(first: Slot?, s: seq<Slot>)
    reads s`link
  {
    if s == [] then first == null else first == s[0] && FreeList(s[0].link, s[1..])
  }

  ghost predicate PageList(first: Batch?, s: seq<Batch>)
    reads s`next
  {
    if s == [] then first == null else first == s[0] && PageList(s[0].next, s[1..])
  }

  /** The pages do not overlap. */
  ghost predicate NoOverlap(pages: seq<Batch>) {
    && Distinct(pages)
    && (forall b :: b in pages ==> Distinct(b.buffer))
    && (forall b, c, i, j :: b in pages && c in pages && 0 <= i < |b.buffer| && 0 <= j < |c.buffer| ==>
          b.buffer[i] == c.buffer[j] ==> b == c)
  }

  function Opt(b: Batch?): set<Batch> {
    if b == null then {} else {b}
  }

  class Allocator {
    /** Slots handed out together. */
    const objectPerAllocation: nat
    const objectsPerPage: nat
    var batches: Batch?
    var currentBatch: Batch?
    var freeHead: Slot?
    /** The pages in list order. */
    ghost var pages: seq<Batch>
    /** The free list in order. */
    ghost var free: seq<Slot>
    /** What was handed out and not released. */
    ghost var live: set<Slot>
    /** Whatever was ever handed out. */
    ghost var handedOut: set<Slot>

    ghost predicate Sizes() {
      objectPerAllocation > 0 && objectsPerPage >= 16
    }

    /** An allocation starts at every objectPerAllocation-th slot. */
    ghost predicate Start(b: Batch, i: int) {
      objectPerAllocation > 0 && 0 <= i < |b.buffer| && i % objectPerAllocation == 0
    }

    /** used advances by whole allocations within the buffer, and cannot pass end if they divide the page size. */
    ghost predicate Filled()
      requires objectPerAllocation > 0
      reads `pages, pages`used
    {
      FilledIn(pages)
    }

    ghost predicate FilledIn(s: seq<Batch>)
      requires objectPerAllocation > 0
      reads s`used
    {
      forall b :: b in s ==> b.used <= |b.buffer| && b.end <= |b.buffer|
                             && |b.buffer| % objectPerAllocation == 0 && b.used % objectPerAllocation == 0
                             && (objectsPerPage % objectPerAllocation == 0 ==>
                                   b.used <= b.end && b.end % objectPerAllocation == 0)
    }

    /** The last page is the dummy page of the constructor; the others have the same size. */
    ghost predicate Sized()
      reads `pages
    {
      SizedIn(pages)
    }

    /** The current page is the head of the list and all the later ones are full. */
    ghost predicate CurrentIsHead()
      reads `pages, `batches, `currentBatch, pages`used
    {
      && |pages| > 0 && batches == currentBatch == pages[0]
      && forall i :: 0 < i < |pages| ==> pages[i].used == pages[i].end
    }

    /** What was handed out is exactly what stands before used in some page. */
    ghost predicate Used()
      reads `handedOut, `pages, pages`used
    {
      UsedIn(pages)
    }

    ghost predicate UsedIn(s: seq<Batch>)
      reads `handedOut, s`used
    {
      && (forall b, i :: b in s && Start(b, i) ==> (b.buffer[i] in handedOut <==> i < b.used))
      && (forall slot :: slot in handedOut ==> exists b, i :: b in s && Start(b, i) && b.buffer[i] == slot)
    }

    /** A new page in front, none of whose slots was handed out. */
    lemma UsedCons(batch: Batch, s: seq<Batch>)
      requires UsedIn(s) && batch.used == 0 && forall slot :: slot in handedOut ==> slot !in batch.buffer
      ensures UsedIn([batch] + s)
    {
      forall slot | slot in handedOut
        ensures exists b, i :: b in [batch] + s && Start(b, i) && b.buffer[i] == slot
      {
        var b, i :| b in s && Start(b, i) && b.buffer[i] == slot;
        assert b in [batch] + s;
      }
    }

    /** Each slot handed out is either live or free; the others were never used. */
    ghost predicate Split()
      reads `handedOut, `live, `free
    {
      && (forall s :: s in handedOut ==> s in live || s in free)
      && live <= handedOut && (forall s :: s in free ==> s in handedOut && s !in live)
    }

    ghost predicate Valid()
      reads this, pages`next, pages`used, free`link
    {
      && Sizes() && NoOverlap(pages) && Filled() && PageList(batches, pages) && CurrentIsHead()
      && FreeList(freeHead, free) && Distinct(free) && Used() && Split() && Sized()
    }

    ghost function Pages(): set<Batch>
      reads `pages
    {
      set b | b in pages
    }

    ghost predicate Current()
      reads `pages, `currentBatch
    {
      pages != [] && currentBatch != null
    }

    /** How many pages there are besides the dummy page, and how far the current one is used. */
    ghost function Where(): Position
      requires Current()
      reads `pages, `currentBatch, Opt(currentBatch)`used
    {
      Position(|pages| - 1, currentBatch.used)
    }

    /** There is memory for the next allocation: a released slot, a new page or the rest of the current one. */
    ghost predicate Room()
      reads `freeHead, `currentBatch, Opt(currentBatch)`used
    {
      || freeHead != null
      || (currentBatch != null
          && (currentBatch.used == currentBatch.end
              || currentBatch.used + objectPerAllocation <= |currentBatch.buffer|))
    }

    constructor (objectPerAllocation: nat, objectsPerPage: nat)
      requires objectPerAllocation > 0 && objectsPerPage >= 16
      ensures Valid() && live == {} && free == [] && handedOut == {} && Current() && Where() == Position(0, 0)
      ensures this.objectPerAllocation == objectPerAllocation && this.objectsPerPage == objectsPerPage
      ensures fresh(Pages())
    {
      this.objectPerAllocation := objectPerAllocation;
      this.objectsPerPage := objectsPerPage;
      var dummy := new Batch(objectPerAllocation, 0);
      batches := dummy;
      currentBatch := dummy;
      freeHead := null;
      pages := [dummy];
      free := [];
      live := {};
      handedOut := {};
    }

    /** A slot is taken from the free list. */
    method TakeFree() returns (slot: Slot)
      requires Valid() && freeHead != null
      modifies `freeHead, `free, `live
      ensures Valid()
      ensures old(free) != [] && slot == old(free[0]) && free == old(free[1..])
      ensures slot !in old(live) && live == old(live) + {slot}
    {
      hide PageList, CurrentIsHead, NoOverlap, Filled, Used, Sizes;
      slot := freeHead;
      assert free[0] in free;
      freeHead := slot.link;
      live := live + {slot};
      free := free[1..];
      assert forall s :: s in old(free) ==> s == slot || s in free;
    }

    /** The next slots of the current page, which has room for a whole allocation. */
    method TakeNew() returns (slot: Slot)
      requires Valid() && currentBatch.used != currentBatch.end
      requires currentBatch.used + objectPerAllocation <= |currentBatch.buffer|
      modifies currentBatch`used, `live, `handedOut
      ensures Valid() && currentBatch.used == old(currentBatch.used) + objectPerAllocation
      ensures slot !in old(handedOut) && handedOut == old(handedOut) + {slot} && live == old(live) + {slot}
      ensures Block(slot)
    {
      hide FreeList, PageList, NoOverlap, Used, Start, Block, Sized;
      var page := currentBatch;
      NextUsed();
      slot := page.buffer[page.used];
      UsedGrows(page, slot);
      IsBlock(page, page.used);
      page.used := page.used + objectPerAllocation;
      live := live + {slot};
      handedOut := handedOut + {slot};
      UsedAre(page);
    }

    /** What used becomes with one more allocation in the current page. */
    lemma NextUsed()
      requires Sizes() && Filled() && CurrentIsHead() && currentBatch.used != currentBatch.end
      requires currentBatch.used + objectPerAllocation <= |currentBatch.buffer|
      ensures currentBatch in pages && Start(currentBatch, currentBatch.used)
      ensures (currentBatch.used + objectPerAllocation) % objectPerAllocation == 0
      ensures objectsPerPage % objectPerAllocation == 0 ==>
                currentBatch.used + objectPerAllocation <= currentBatch.end
    {
      assert pages[0] in pages;
      Multiple(currentBatch.used, |currentBatch.buffer|, objectPerAllocation);
      if objectsPerPage % objectPerAllocation == 0 {
        Multiple(currentBatch.used, currentBatch.end, objectPerAllocation);
      }
    }

    /** With a page size that the allocation size divides there is always room. */
    lemma AlwaysRoom()
      requires Valid() && objectsPerPage % objectPerAllocation == 0
      ensures Room()
    {
      hide FreeList, PageList, NoOverlap, Used, Split, Sized;
      assert pages[0] in pages;
      if currentBatch.used != currentBatch.end {
        Multiple(currentBatch.used, currentBatch.end, objectPerAllocation);
      }
    }

    /** In general, exactly while the next position lies within the memory of a page. */
    lemma RoomAt()
      requires Valid() && free == []
      ensures Room() <==> Step(Where(), objectPerAllocation, objectsPerPage).used <= objectPerAllocation * objectsPerPage
    {
      hide PageList, NoOverlap, Used, Split;
      assert pages[0] in pages;
      MulMonotone(objectPerAllocation, 1, objectsPerPage);
    }

    lemma IsBlock(page: Batch, i: nat)
      requires page in pages && Start(page, i) && i + objectPerAllocation <= |page.buffer|
      ensures Block(page.buffer[i])
    {
    }

    /** How Used() looks once the slots at the end of the used part of a page are handed out. */
    ghost predicate UsedWith(page: Batch, used: nat, handed: set<Slot>)
      reads `pages, pages`used
    {
      && (forall b, i :: b in pages && Start(b, i) ==> (b.buffer[i] in handed <==> i < if b == page then used else b.used))
      && (forall s :: s in handed ==> exists b, i :: b in pages && Start(b, i) && b.buffer[i] == s)
    }

    lemma UsedAre(page: Batch)
      requires UsedWith(page, page.used, handedOut)
      ensures Used()
    {
    }

    lemma UsedGrows(page: Batch, slot: Slot)
      requires Used() && NoOverlap(pages) && page in pages && Start(page, page.used)
      requires slot == page.buffer[page.used]
      ensures slot !in handedOut && UsedWith(page, page.used + objectPerAllocation, handedOut + {slot})
    {
      var i := page.used;
      forall b, j | b in pages && Start(b, j)
        ensures b.buffer[j] in handedOut + {slot} <==> j < if b == page then i + objectPerAllocation else b.used
      {
        if b == page && j > i {
          Multiple(i, j, objectPerAllocation);
        }
      }
    }

    /** The slot starts objectPerAllocation slots of one page. */
    ghost predicate Block(slot: Slot)
      reads `pages
    {
      exists b, i :: b in pages && Start(b, i) && i + objectPerAllocation <= |b.buffer| && b.buffer[i] == slot
    }

    /** The dummy page has no room; every other page ends at the page size. */
    lemma CurrentEnd()
      requires Sizes() && Filled() && Sized() && CurrentIsHead()
      ensures |pages| > 1 ==> currentBatch.end == objectsPerPage
      ensures |pages| == 1 ==> currentBatch.used == currentBatch.end
    {
      assert pages[0] in pages;
    }

    /** Never a live slot: the head of the free list, or one never handed out before. */
    method Allocate() returns (slot: Slot)
      requires Valid() && Room()
      modifies this, Pages()`used
      ensures Valid() && fresh(Pages() - old(Pages()))
      ensures slot !in old(live) && live == old(live) + {slot} && Block(slot)
      ensures if old(free) != [] then slot == old(free[0]) && free == old(free[1..]) && handedOut == old(handedOut)
              else free == [] && slot !in old(handedOut) && handedOut == old(handedOut) + {slot}
      ensures Current() && Where() == if old(free) != [] then old(Where())
                         else Step(old(Where()), objectPerAllocation, objectsPerPage)
    {
      hide NoOverlap, Used, Block, Filled, Sized;
      if freeHead != null {
        slot := TakeFree();
        HandedOutIsBlock(slot);
        return;
      }
      CurrentEnd();
      if currentBatch.used == currentBatch.end {
        NextPage();
      }
      slot := TakeNew();
    }

    /** Two live allocations share no slot, and each lies inside its page. */
    lemma LiveBlocksDisjoint(b: Batch, i: nat, c: Batch, j: nat, k: nat, l: nat)
      requires Valid() && b in pages && c in pages && Start(b, i) && Start(c, j)
      requires b.buffer[i] in live && c.buffer[j] in live && b.buffer[i] != c.buffer[j]
      requires k < objectPerAllocation && l < objectPerAllocation
      ensures i + k < |b.buffer| && j + l < |c.buffer| && b.buffer[i + k] != c.buffer[j + l]
    {
      hide PageList, FreeList;
      Multiple(i, |b.buffer|, objectPerAllocation);
      Multiple(j, |c.buffer|, objectPerAllocation);
      if b == c {
        if i < j {
          Multiple(i, j, objectPerAllocation);
        } else {
          Multiple(j, i, objectPerAllocation);
        }
      }
    }

    /** Whatever was handed out, and so every live and every free slot, starts an allocation. */
    lemma HandedOutIsBlock(slot: Slot)
      requires Valid() && slot in handedOut
      ensures Block(slot)
    {
      hide PageList, FreeList;
      var b, i :| b in pages && Start(b, i) && b.buffer[i] == slot;
      Multiple(i, |b.buffer|, objectPerAllocation);
    }

    method Release(slot: Slot)
      requires Valid() && slot in live
      modifies `freeHead, `free, `live, slot`link
      ensures Valid()
      ensures live == old(live) - {slot} && free == [slot] + old(free) && handedOut == old(handedOut)
      ensures Where() == old(Where())
    {
      hide NoOverlap, Filled, Used, PageList, CurrentIsHead, Sizes, Sized;
      ghost var before := free;
      slot.link := freeHead;
      assert FreeList(freeHead, before);
      freeHead := slot;
      live := live - {slot};
      free := [slot] + free;
      assert free[1..] == before;
      assert forall s :: s in free <==> s == slot || s in before;
    }

    /** None of the pages from the second on has room, so the search for one always reaches the end. */
    method NextPage()
      requires Valid() && currentBatch.used == currentBatch.end
      modifies `currentBatch, `batches, `pages
      ensures Valid() && currentBatch.used == 0 < currentBatch.end
      ensures objectPerAllocation <= |currentBatch.buffer|
      ensures fresh(currentBatch) && pages == [currentBatch] + old(pages)
    {
      hide FreeList, Split, NoOverlap, Filled, Used, Sized;
      assert pages[0..] == pages;
      currentBatch := currentBatch.next;
      ghost var k := 1;
      while currentBatch != null && currentBatch.used == currentBatch.end
        invariant 1 <= k <= |pages| && PageList(currentBatch, pages[k..])
        decreases |pages| - k
        modifies `currentBatch
      {
        currentBatch := currentBatch.next;
        assert pages[k..][1..] == pages[k + 1..];
        k := k + 1;
      }
      assert currentBatch == null;
      if currentBatch == null {
        var batch := new Batch(objectPerAllocation, objectsPerPage);
        assert AllSlotsOld(batch) by { hide PageList; }
        NewPage(batch);
        AddPage(batch);
      }
    }

    ghost predicate SizedIn(s: seq<Batch>) {
      && |s| > 0 && s[|s| - 1].end == |s[|s| - 1].buffer| == 0
      && forall i :: 0 <= i < |s| - 1 ==>
           s[i].end == objectsPerPage && |s[i].buffer| == objectPerAllocation * objectsPerPage
    }

    lemma SizedCons(batch: Batch, s: seq<Batch>)
      requires SizedIn(s) && NewSizes(batch)
      ensures SizedIn([batch] + s)
    {
      var r := [batch] + s;
      assert r[|r| - 1] == s[|s| - 1];
      assert forall i :: 0 < i < |r| ==> r[i] == s[i - 1];
    }

    lemma FilledCons(batch: Batch, s: seq<Batch>)
      requires Sizes() && FilledIn(s) && batch.used == 0 && NewSizes(batch)
      requires batch.end <= |batch.buffer| && |batch.buffer| % objectPerAllocation == 0
      ensures FilledIn([batch] + s)
    {
    }

    /** The slots of a new page belong to no other page. */
    ghost predicate AllSlotsOld(batch: Batch)
      reads `pages, `handedOut
    {
      && batch !in pages && (forall s :: s in handedOut ==> s !in batch.buffer)
      && (forall b, i :: b in pages && 0 <= i < |b.buffer| ==> b.buffer[i] !in batch.buffer)
    }

    /** The sizes of a page just allocated. */
    ghost predicate NewSizes(batch: Batch) {
      batch.end == objectsPerPage && |batch.buffer| == objectPerAllocation * objectsPerPage
    }

    lemma NewPage(batch: Batch)
      requires Sizes() && NewSizes(batch)
      ensures objectPerAllocation <= |batch.buffer| && batch.end <= |batch.buffer|
      ensures |batch.buffer| % objectPerAllocation == 0
    {
      MulMonotone(objectPerAllocation, 1, objectsPerPage);
      MulMonotone(objectsPerPage, 1, objectPerAllocation);
      ModOfMultiple(objectPerAllocation, objectsPerPage);
    }

    /** A new page becomes the head of the list. */
    method AddPage(batch: Batch)
      requires Sizes() && NoOverlap(pages) && Filled() && PageList(batches, pages) && Used() && Sized()
      requires forall i :: 0 <= i < |pages| ==> pages[i].used == pages[i].end
      requires AllSlotsOld(batch) && Distinct(batch.buffer) && batch.used == 0 && NewSizes(batch)
      requires batch.end <= |batch.buffer| && |batch.buffer| % objectPerAllocation == 0
      requires batch !in pages
      modifies `currentBatch, `batches, `pages, batch`next
      ensures NoOverlap(pages) && Filled() && PageList(batches, pages) && CurrentIsHead() && Used() && Sized()
      ensures currentBatch == batch && pages == [batch] + old(pages)
    {
      hide PageList, NoOverlap, UsedIn, FilledIn, SizedIn, NewSizes, Distinct;
      ghost var before := pages;
      LinkPage(batch);
      NoOverlapCons(batch, before);
      UsedCons(batch, before);
      SizedCons(batch, before);
      FilledCons(batch, before);
      assert forall i :: 0 < i < |pages| ==> pages[i] == before[i - 1];
    }

    method LinkPage(batch: Batch)
      requires PageList(batches, pages) && batch !in pages
      modifies `currentBatch, `batches, `pages, batch`next
      ensures PageList(batches, pages) && batches == currentBatch == batch && pages == [batch] + old(pages)
    {
      ghost var before := pages;
      currentBatch := batch;
      currentBatch.next := batches;
      assert PageList(batches, before);
      pages := [batch] + pages;
      assert pages[1..] == before;
      batches := currentBatch;
    }
  }

  /** Two multiples of m are at least m apart. */
  lemma Multiple(a: nat, b: nat, m: nat)
    requires m > 0 && a % m == 0 && b % m == 0 && a < b
    ensures a + m <= b && (a + m) % m == 0
  {
    QuotientsApart(a / m, b / m, m);
    assert a == m * (a / m) && b == m * (b / m);
    ModOfMultiple(m, a / m + 1);
  }

  lemma QuotientsApart(i: nat, j: nat, m: nat)
    requires m * i < m * j
    ensures m * i + m <= m * j && m * (i + 1) == m * i + m
  {
    if j <= i {
      MulMonotone(m, j, i);
    } else {
      MulMonotone(m, i, j);
      MulMonotone(m, i + 1, j);
    }
  }

  lemma MulMonotone(m: nat, i: nat, j: nat)
    requires i <= j
    ensures m * i <= m * j && m * (i + 1) == m * i + m
  {
  }

  lemma ModOfMultiple(m: nat, i: nat)
    requires m > 0
    ensures (m * i) % m == 0
  {
    var x := m * i;
    var d := x / m;
    assert x == m * d + x % m;
    if d < i {
      MulMonotone(m, d, i);
      MulMonotone(m, d + 1, i);
    } else {
      MulMonotone(m, i, d);
    }
  }

  lemma NoOverlapCons(batch: Batch, pages: seq<Batch>)
    requires NoOverlap(pages) && Distinct(batch.buffer) && batch !in pages
    requires forall b, i :: b in pages && 0 <= i < |b.buffer| ==> b.buffer[i] !in batch.buffer
    ensures NoOverlap([batch] + pages)
  {
    forall b, c, i, j | b in [batch] + pages && c in [batch] + pages && 0 <= i < |b.buffer| && 0 <= j < |c.buffer|
      ensures b.buffer[i] == c.buffer[j] ==> b == c
    {
      assert b.buffer[i] in b.buffer && c.buffer[j] in c.buffer;
    }
  }

  // ---- how far a page is used ----

  /** How many pages there are, and how many slots of the current one are used. */
  datatype Position = Position(pages: nat, used: nat)

  /** An allocation that finds no released slot. */
  function Step(p: Position, per: nat, size: nat): Position {
    if p.pages == 0 || p.used == size then Position(p.pages + 1, per) else Position(p.pages, p.used + per)
  }

  /** After n allocations without a release. */
  function After(n: nat, per: nat, size: nat): Position {
    if n == 0 then Position(0, 0) else Step(After(n - 1, per, size), per, size)
  }

  lemma {:induction false} DividedPages(n: nat, per: nat, size: nat)
    requires per > 0 && size > 0 && size % per == 0
    ensures var p := After(n, per, size);
            p.used <= size && p.used % per == 0 && (p.pages == 0 <==> n == 0)
  {
    if n > 0 {
      DividedPages(n - 1, per, size);
      var p := After(n - 1, per, size);
      if p.pages > 0 && p.used != size {
        Multiple(p.used, size, per);
      } else {
        Multiple(0, size, per);
      }
    }
  }

  /**
   * With k allocations to a page every k-th one fills its page: allocation
   * number q * k + r + 1 is the (r + 1)-st of page q + 1.
   */
  lemma {:induction false} PagesNeeded(q: nat, r: nat, per: nat, k: nat)
    requires per > 0 && r < k
    ensures After(q * k + r + 1, per, per * k) == Position(q + 1, per * (r + 1))
    decreases q, r
  {
    hide After, Step;
    if r > 0 {
      PagesNeeded(q, r - 1, per, k);
      MulMonotone(per, r, k - 1);
      OneMore(q * k + r, per, per * k);
      MulMonotone(per, r, r + 1);
    } else if q > 0 {
      PagesNeeded(q - 1, k - 1, per, k);
      MulMonotone(k, q - 1, q);
      assert q * k == (q - 1) * k + (k - 1) + 1;
      OneMore(q * k, per, per * k);
    } else {
      OneMore(0, per, per * k);
    }
  }

  lemma OneMore(n: nat, per: nat, size: nat)
    ensures n == 0 ==> After(n + 1, per, size) == Position(1, per)
    ensures var p := After(n, per, size);
            p.pages > 0 ==> After(n + 1, per, size)
                            == if p.used == size then Position(p.pages + 1, per) else Position(p.pages, p.used + per)
  {
  }

  /** If the allocation size does not divide the page size, the end of the first page is never met. */
  lemma {:induction false} OnePage(n: nat, per: nat, size: nat)
    requires per > 0 && size % per != 0
    ensures After(n, per, size) == if n == 0 then Position(0, 0) else Position(1, per * n)
  {
    if n > 0 {
      OnePage(n - 1, per, size);
      ModOfMultiple(per, n - 1);
      MulMonotone(per, n - 1, n);
    }
  }

  /** used stays within the slots that end counts, in every run, exactly if the allocation size divides the page size. */
  lemma StaysBeforeEnd(per: nat, size: nat)
    requires per > 0 && size > 0
    ensures (forall n: nat :: After(n, per, size).used <= size) <==> size % per == 0
  {
    if size % per == 0 {
      forall n: nat ensures After(n, per, size).used <= size {
        DividedPages(n, per, size);
      }
    } else {
      OnePage(size + 1, per, size);
      MulMonotone(size + 1, 1, per);
    }
  }

  /** The memory of a page holds the first n allocations exactly if the size divides, or n is at most the page size. */
  lemma StaysInMemory(n: nat, per: nat, size: nat)
    requires per > 0 && size > 0
    ensures After(n, per, size).used <= per * size <==> size % per == 0 || n <= size
  {
    if size % per == 0 {
      DividedPages(n, per, size);
      MulMonotone(size, 1, per);
    } else {
      OnePage(n, per, size);
      if n <= size {
        MulMonotone(per, n, size);
      } else {
        MulMonotone(per, size, size + 1);
        MulMonotone(per, size + 1, n);
      }
    }
  }

  /** The array pages of the JSON library: 8 items an allocation, 255 to a page. */
  lemma ArrayPages()
    ensures After(255, 8, 255) == Position(1, 2040) && After(256, 8, 255) == Position(1, 2048)
    ensures 2040 == 8 * 255 < 2048
  {
    OnePage(255, 8, 255);
    OnePage(256, 8, 255);
  }

  /** A run of n allocations: as many different slots, and used where After says. */
  method AllocateMany(per: nat, size: nat, n: nat) returns (a: Allocator, slots: seq<Slot>)
    requires per > 0 && size >= 16 && (size % per == 0 || n <= size)
    ensures a.Valid() && |slots| == n && Distinct(slots) && (forall s :: s in slots ==> s in a.live)
    ensures a.Where() == After(n, per, size)
  {
    hide Allocator.Valid, Distinct, Step;
    a := new Allocator(per, size);
    slots := [];
    NothingDistinct();
    while |slots| < n
      invariant |slots| <= n && a.Valid() && a.free == []
      invariant a.objectPerAllocation == per && a.objectsPerPage == size
      invariant fresh(a) && fresh(a.Pages())
      invariant Distinct(slots) && forall s :: s in slots <==> s in a.live
      invariant a.Current() && a.Where() == After(|slots|, per, size)
    {
      StaysInMemory(|slots| + 1, per, size);
      a.RoomAt();
      var slot := a.Allocate();
      DistinctAppend(slots, slot);
      slots := slots + [slot];
    }
  }

  lemma NothingDistinct()
    ensures Distinct<Slot>([])
  {
  }

  lemma DistinctAppend(slots: seq<Slot>, slot: Slot)
    requires Distinct(slots) && slot !in slots
    ensures Distinct(slots + [slot])
  {
  }
}
