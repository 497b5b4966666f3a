/** The physical page allocator (kernel/kalloc.c). */
module Kalloc {
  import opened Params
  import opened PageTable

  const PGSIZE := 4096

  // The contents of physical memory, page by page.
  type Ram = map<Page, seq<bv8>>

  // RAMBASE and RAMSTOP as physical page numbers: 128 MB.
  const FIRST := 0x90000
  const LAST := 0x98000

  predicate InRam(p: Page) { FIRST <= p < LAST }

  // A page filled with one byte.
  function Filled(b: bv8): seq<bv8> { seq(PGSIZE, _ => b) }

  function PageUp(a: nat): nat { (a + PGSIZE - 1) / PGSIZE }

  // The pages of list, from head on along next.
  ghost predicate Linked(head: Option<Page>, next: map<Page, Option<Page>>, list: seq<Page>)
    decreases |list|
  {
    if list == [] then head == None
    else head == Some(list[0]) && list[0] in next && Linked(next[list[0]], next, list[1..])
  }

  lemma {:induction false} LinkedElsewhere(head: Option<Page>, next: map<Page, Option<Page>>, list: seq<Page>, p: Page,
                                           q: Option<Page>)
    requires Linked(head, next, list) && p !in list
    ensures Linked(head, next[p := q], list)
    decreases |list|
  {
    if list != [] {
      LinkedElsewhere(next[list[0]], next, list[1..], p, q);
    }
  }

  class Kmem {
    var freelist: Option<Page>
    var next: map<Page, Option<Page>>  // the link at the start of each free page
    var data: Ram      // contents of RAM
    ghost var list: seq<Page>
    ghost var free: set<Page>          // the pages on the list

    ghost predicate Valid() reads this {
      && Linked(freelist, next, list)
      && (forall i, j :: 0 <= i < j < |list| ==> list[i] != list[j])
      && (forall p :: p in free <==> p in list)
      && (forall p :: p in free ==> InRam(p))
      && (forall p :: InRam(p) ==> p in data && |data[p]| == PGSIZE)
    }

    // kinit: every page of RAM becomes free.
    constructor (ram: Ram)
      requires forall p :: InRam(p) ==> p in ram && |ram[p]| == PGSIZE
      ensures Valid() && forall p :: p in free <==> InRam(p)
    {
      freelist, next, data, list, free := None, map[], ram, [], {};
      new;
      Freerange(FIRST * PGSIZE, LAST * PGSIZE);
    }

    method Freerange(start: nat, end: nat)
      requires Valid() && FIRST * PGSIZE <= start && end <= LAST * PGSIZE
      requires forall p :: p in free ==> !(PageUp(start) <= p < end / PGSIZE)
      modifies this
      ensures Valid() && forall p :: p in free <==> p in old(free) || PageUp(start) <= p < end / PGSIZE
    {
      var p := PageUp(start);
      while p * PGSIZE + PGSIZE <= end
        invariant PageUp(start) <= p && Valid()
        invariant p == PageUp(start) || p <= end / PGSIZE
        invariant forall q :: q in free <==> q in old(free) || PageUp(start) <= q < p
        decreases end - p * PGSIZE
      {
        Kfree(p);
        p := p + 1;
      }
    }

    // A free page would make the list circular; a page outside RAM panics.
    method Kfree(p: Page)
      requires Valid() && InRam(p) && p !in free
      modifies this
      ensures Valid() && list == [p] + old(list) && free == old(free) + {p} && data == old(data)[p := Filled(1)]
    {
      data := data[p := Filled(1)];
      LinkedElsewhere(freelist, next, list, p, freelist);
      assert ([p] + list)[1..] == list;
      next := next[p := freelist];
      freelist := Some(p);
      list, free := [p] + list, free + {p};
    }

    // The pages come back last in, first out; none exactly when none is free.
    method Kalloc() returns (p: Option<Page>)
      requires Valid()
      modifies this
      ensures Valid() && (p.None? <==> old(free) == {})
      ensures p.None? ==> free == old(free) && data == old(data)
      ensures p.Some? ==> old(list) == [p.value] + list
      ensures p.Some? ==>
                p.value in old(free) && free == old(free) - {p.value} && data == old(data)[p.value := Filled(5)]
    {
      p := freelist;
      if p.Some? {
        assert list[0] in old(free) && list == [list[0]] + list[1..];
        freelist := next[p.value];
        data := data[p.value := Filled(5)];
        list, free := list[1..], free - {p.value};
      }
    }
  }
}
