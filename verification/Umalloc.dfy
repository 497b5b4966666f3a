/**
  malloc, free and morecore (user/umalloc.c) as code that rewrites headers in
  place, against the geometry of module Heap.
 */
module Umalloc {
  import opened Params
  import opened Heap

  const HEADER := 16  // sizeof(Header)

  // The member after position k of the circular list.
  function Nxt(fl: seq<nat>, k: nat): nat
    requires k < |fl|
  {
    if k + 1 < |fl| then fl[k + 1] else fl[0]
  }

  // The ptr fields link the list, in address order with one wrap.
  ghost predicate Ring(ptr: seq<nat>, fl: seq<nat>) {
    forall k {:trigger Pos(k)} :: Pos(k) && 0 <= k < |fl| ==> fl[k] < |ptr| && ptr[fl[k]] == Nxt(fl, k)
  }

  lemma RingInsert(ptr: seq<nat>, g: Geo, i: nat, bp: nat)
    requires g.Valid() && Ring(ptr, g.fl) && i < |g.fl| && bp in g.live && bp < |ptr| && g.fl[i] < |ptr|
    ensures Ring(ptr[bp := ptr[g.fl[i]]][g.fl[i] := bp], Insert(g, i, bp).fl)
  {
    var fl', ptr' := Insert(g, i, bp).fl, ptr[bp := ptr[g.fl[i]]][g.fl[i] := bp];
    OnlyAt(g, i, g.fl[i]);
    assert Pos(i);
    forall k {:trigger Pos(k)} | Pos(k) && 0 <= k < |fl'| ensures fl'[k] < |ptr'| && ptr'[fl'[k]] == Nxt(fl', k) {
      if k != i + 1 {
        var j := if k <= i then k else k - 1;
        assert Pos(j) && fl'[k] == g.fl[j] != bp;
        assert j != i ==> g.fl[j] != g.fl[i];
      }
    }
  }

  lemma RingDrop(ptr: seq<nat>, g: Geo, k: nat)
    requires g.Valid() && Ring(ptr, g.fl) && k + 1 < |g.fl| && g.fl[k] < |ptr| && g.fl[k + 1] < |ptr|
    ensures Ring(ptr[g.fl[k] := ptr[g.fl[k + 1]]], g.fl[..k + 1] + g.fl[k + 2..])
  {
    var fl', ptr' := g.fl[..k + 1] + g.fl[k + 2..], ptr[g.fl[k] := ptr[g.fl[k + 1]]];
    OnlyAt(g, k, g.fl[k]);
    forall j {:trigger Pos(j)} | Pos(j) && 0 <= j < |fl'| ensures fl'[j] < |ptr'| && ptr'[fl'[j]] == Nxt(fl', j) {
      assert Pos(j + 1) && Pos(k + 1);
      assert j != k ==> fl'[j] != g.fl[k];
    }
  }

  // The position in the list below which a live block belongs.
  lemma {:induction false} Spot(g: Geo, bp: nat, n: nat) returns (t: nat)
    requires g.Valid() && bp in g.live && 0 < n <= |g.fl| && (n < |g.fl| ==> bp < g.fl[n])
    ensures t < |g.fl| && g.fl[t] < bp && (t + 1 < |g.fl| ==> bp < g.fl[t + 1])
  {
    assert Head(bp) && Pos(n - 1);
    if g.fl[n - 1] < bp {
      t := n - 1;
    } else {
      t := Spot(g, bp, n - 1);
    }
  }

  // The units of every block that was live and still is are as they were, its
  // header and what the user put in it alike.
  ghost predicate Untouched(g: Geo, ptr: seq<nat>, size: seq<nat>, live': set<nat>, ptr': seq<nat>, size': seq<nat>) {
    forall u {:trigger Unit(u)} :: Unit(u) && u in g.home && g.home[u] in g.live && g.home[u] in live' ==>
      u < |ptr| && u < |size| && u < |ptr'| && u < |size'| && ptr'[u] == ptr[u] && size'[u] == size[u]
  }

  // A header belongs to its own block.
  lemma HeadHome(g: Geo, h: nat)
    requires g.Valid() && (h in g.live || h in g.fl)
    ensures h in g.home ==> g.home[h] == h
  {
    assert Head(h) && Unit(h) && Pos(0);
    if h in g.fl {
      var k :| 0 <= k < |g.fl| && g.fl[k] == h;
      assert Pos(k);
    }
  }

  // free writes to the header of its block and to one on the list.
  lemma OnlyHeads(g: Geo, ptr: seq<nat>, size: seq<nat>, bp: nat, p: nat, ptr': seq<nat>, size': seq<nat>)
    requires g.Valid() && bp in g.live && p in g.fl && |g.size| == |size| == |ptr| == |size'| == |ptr'|
    requires forall u :: 0 <= u < |ptr| && u != bp && u != p ==> ptr'[u] == ptr[u] && size'[u] == size[u]
    ensures Untouched(g, ptr, size, g.live - {bp}, ptr', size')
  {
    HeadHome(g, bp);
    HeadHome(g, p);
    assert p !in g.live by {
      var k :| 0 <= k < |g.fl| && g.fl[k] == p;
      assert Pos(k);
    }
  }

  // malloc's first call writes to base, which is in no block.
  lemma StartUntouched(g: Geo, ptr: seq<nat>, ptr': seq<nat>)
    requires g.Valid() && |ptr| == |g.size| == |ptr'| && forall u :: 0 < u < |ptr| ==> ptr'[u] == ptr[u]
    ensures Untouched(g, ptr, g.size, g.live, ptr', g.size)
  {
  }

  // One change after another.
  lemma UntouchedThen(g: Geo, ptr: seq<nat>, g': Geo, ptr': seq<nat>, live'': set<nat>, ptr'': seq<nat>,
                      size'': seq<nat>)
    requires g.Valid() && g'.Valid() && (forall h :: h in g.live && h in live'' ==> h in g'.live)
    requires forall h :: h in g.live && h in g'.live ==> h < |g.size| && h < |g'.size| && g'.size[h] == g.size[h]
    requires Untouched(g, ptr, g.size, g'.live, ptr', g'.size) && Untouched(g', ptr', g'.size, live'', ptr'', size'')
    ensures Untouched(g, ptr, g.size, live'', ptr'', size'')
  {
    forall u {:trigger Unit(u)} | Unit(u) && u in g.home && g.home[u] in g.live && g.home[u] in live''
      ensures u in g'.home && g'.home[u] == g.home[u]
    {
      assert Head(g.home[u]) && Unit(u);
    }
  }

  class Allocator {
    var ptr: seq<nat>
    var size: seq<nat>
    var freep: Option<nat>
    ghost var g: Geo

    ghost predicate Valid()
      reads this
    {
      && g.size == size && |ptr| == |size| && g.Valid() && g.Apart()
      && (freep.None? ==> g.fl == [0] && g.live == {})
      && (freep.Some? ==> freep.value in g.fl && Ring(ptr, g.fl))
    }

    // No memory but the static header.
    constructor ()
      ensures Valid() && freep.None? && g.live == {} && g.home == map[]
    {
      ptr, size, freep, g := [0], [0], None, Geo([0], [0], {}, map[]);
    }

    // free's search loop: the member behind which bp belongs.
    method Search(bp: nat) returns (p: nat, ghost t: nat)
      requires Valid() && bp in g.live
      ensures t < |g.fl| && p == g.fl[t] < bp && (t + 1 < |g.fl| ==> bp < g.fl[t + 1])
    {
      t := Spot(g, bp, |g.fl|);
      p := freep.value;
      ghost var c :| 0 <= c < |g.fl| && g.fl[c] == p;
      assert Pos(c);
      while !(bp > p && bp < ptr[p])
        invariant 0 <= c < |g.fl| && p == g.fl[c] < |ptr| && ptr[p] == Nxt(g.fl, c)
        decreases if c <= t then t - c else |g.fl| - c + t
      {
        Passing(g, bp, c, t);
        if p >= ptr[p] && (bp > p || bp < ptr[p]) {
          break;
        }
        c := if c + 1 < |g.fl| then c + 1 else 0;
        assert Pos(c);
        p := ptr[p];
      }
      Passing(g, bp, c, t);
    }

    // The loop of free stops exactly at the right place.
    static lemma Passing(g: Geo, bp: nat, c: nat, t: nat)
      requires g.Valid() && c < |g.fl| && t < |g.fl| && g.fl[t] < bp && (t + 1 < |g.fl| ==> bp < g.fl[t + 1])
      ensures var p, nx := g.fl[c], Nxt(g.fl, c);
              c == t <==> (bp > p && bp < nx) || (p >= nx && (bp > p || bp < nx))
    {
      assert Pos(c) && Pos(0);
      if c < t {
        Increasing(g, c, t);
        if c + 1 < t { Increasing(g, c + 1, t); }
      } else if t < c {
        if t + 1 < c { Increasing(g, t + 1, c); }
      }
    }

    // The first conditional of free: absorb the right neighbour or link to it.
    method LinkRight(p: nat, bp: nat, ghost t: nat)
      requires Valid() && bp in g.live
      requires t < |g.fl| && p == g.fl[t] < bp && (t + 1 < |g.fl| ==> bp < g.fl[t + 1])
      modifies this`size, this`ptr
      ensures bp < |g.size| == |size| == |ptr| && forall k :: 0 <= k < |g.fl| ==> g.fl[k] < |g.size|
      ensures p < |ptr| && size == Absorbed(g, t, bp).size && Ring(ptr[p := bp], Absorbed(g, t, bp).fl)
      ensures bp < |old(size)| && size == old(size)[bp := size[bp]] && ptr == old(ptr)[bp := ptr[bp]]
    {
      LinksRight(ptr, g, t, bp);
      if bp + size[bp] == ptr[p] {
        size := size[bp := size[bp] + size[ptr[p]]];
        ptr := ptr[bp := ptr[ptr[p]]];
      } else {
        ptr := ptr[bp := ptr[p]];
      }
    }

    // free(ap), of a pointer that malloc returned and nobody freed since. The
    // block goes behind member t of the list and merges with what it touches.
    method Free(ap: nat) returns (ghost t: nat)
      requires Valid() && ap > 0 && ap - 1 in g.live
      modifies this
      ensures Valid() && freep.Some? && |size| == |old(size)|
      ensures t < |old(g.fl)| && old(g).fl[t] < ap - 1 && (t + 1 < |old(g.fl)| ==> ap - 1 < old(g).fl[t + 1])
      ensures ap - 1 < |old(size)| && forall k :: 0 <= k < |old(g.fl)| ==> old(g).fl[k] < |old(size)|
      ensures freep.value == old(g).fl[t] && g == Freed(old(g), t, ap - 1)
      ensures g.live == old(g.live) - {ap - 1} && g.home.Keys == old(g.home.Keys)
      ensures Untouched(old(g), old(ptr), old(size), g.live, ptr, size)
    {
      var bp := ap - 1;
      var p;
      p, t := Search(bp);
      FreedValid(g, t, bp);
      AbsorbRight(g, t, bp);
      LinkRight(p, bp, t);
      LinkLeft(p, bp, t);
      OnlyHeads(g, old(ptr), old(size), bp, p, ptr, size);
      freep := Some(p);
      g := Freed(g, t, bp);
      assert g.fl[t] == p;
    }

    // The second conditional of free: join the left neighbour or link from it.
    method LinkLeft(p: nat, bp: nat, ghost t: nat)
      requires g.Valid() && g.Apart() && bp in g.live && bp < |g.size| == |size| == |ptr|
      requires forall k :: 0 <= k < |g.fl| ==> g.fl[k] < |g.size|
      requires t < |g.fl| && p == g.fl[t] < bp && (t + 1 < |g.fl| ==> bp < g.fl[t + 1])
      requires size == Absorbed(g, t, bp).size && Ring(ptr[p := bp], Absorbed(g, t, bp).fl)
      modifies this`size, this`ptr
      ensures |size| == |ptr| == |old(size)| && size == Freed(g, t, bp).size && Ring(ptr, Freed(g, t, bp).fl)
      ensures size == old(size)[p := size[p]] && ptr == old(ptr)[p := ptr[p]]
    {
      AbsorbRight(g, t, bp);
      ghost var g2 := Absorbed(g, t, bp);
      if p + size[p] == bp {
        LinksLeft(ptr[p := bp], g2, t, bp);
        assert ptr[p := bp][p := ptr[bp]] == ptr[p := ptr[bp]];
        size := size[p := size[p] + size[bp]];
        ptr := ptr[p := ptr[bp]];
      } else {
        ptr := ptr[p := bp];
      }
    }

    // sbrk delivers nu units at start; morecore writes the header of the block.
    method Extend(start: nat, nu: nat)
      requires Valid() && freep.Some? && start >= |size| && nu > 0
      modifies this
      ensures Valid() && freep.Some? && |size| == start + nu && size[start] == nu
      ensures start !in old(g.live) && g.live == old(g.live) + {start}
      ensures forall u :: u in g.home <==> u in old(g.home) || start <= u < start + nu
      ensures forall h :: h in old(g.live) ==> h < |old(size)| && size[h] == old(size)[h]
      ensures forall u :: u in old(g.home) ==> g.home[u] == old(g.home)[u]
      ensures Untouched(old(g), old(ptr), old(size), g.live, ptr, size)
    {
      var more := start + nu - |size|;
      assert |seq(more, _ => 0)| == more;
      var mem: seq<nat> :| |mem| == more;  // memory as sbrk delivers it
      var links: seq<nat> :| |links| == more;
      GrowValid(g, start, nu, mem);
      forall h | h in g.live ensures h < |size| { assert Head(h); }
      assert Ring(ptr + links, g.fl);
      ptr := ptr + links;
      size := (size + mem)[start := nu];
      g := Grow(g, start, nu, mem);
    }

    // morecore: at least 4096 units from sbrk, put on the list by free. brk is
    // the unit that sbrk returns, None when it fails.
    method Morecore(nunits: nat, brk: Option<nat>) returns (ok: bool)
      requires Valid() && freep.Some? && (brk.Some? ==> brk.value >= |size|)
      modifies this
      ensures ok <==> brk.Some?
      ensures !ok ==> unchanged(this)
      ensures ok ==> Valid() && freep.Some? && g.live == old(g.live) && |size| >= |old(size)|
      ensures ok ==> forall u :: u in g.home <==> u in old(g.home) || brk.value <= u < brk.value + Units(nunits)
      ensures ok ==> HasRoom(nunits)
      ensures ok ==> forall h :: h in g.live ==> h < |old(size)| && size[h] == old(size)[h]
      ensures ok ==> Untouched(old(g), old(ptr), old(size), g.live, ptr, size)
    {
      if brk.None? { return false; }
      Extend(brk.value, Units(nunits));
      ghost var g1, ptr1 := g, ptr;
      ghost var t := Free(brk.value + 1);
      FreedRoom(g1, t, brk.value);
      UntouchedThen(old(g), old(ptr), g1, ptr1, g.live, ptr, size);
      return true;
    }

    // The block at position k, of at least n units: taken whole, or its tail.
    method Carve(p: nat, prevp: nat, n: nat, ghost k: nat) returns (q: nat)
      requires Valid() && freep.Some? && 0 < k < |g.fl| && p == g.fl[k] && prevp == g.fl[k - 1] && p < |size|
      requires 0 < n <= size[p]
      modifies this
      ensures Valid() && freep == Some(prevp) && |size| == |old(size)|
      ensures q < |size| && size[q] == n && q !in old(g.live) && g.live == old(g.live) + {q}
      ensures g.home.Keys == old(g.home.Keys)
      ensures q in old(g.home) && old(g.home)[q] == p
      ensures forall h :: h in old(g.live) ==> h < |size| && size[h] == old(size)[h]
      ensures Untouched(old(g), old(ptr), old(size), g.live, ptr, size)
    {
      if size[p] == n {
        TakeWhole(p, prevp, k);
        q := p;
      } else {
        q := TakeTail(p, prevp, n, k);
      }
      freep := Some(prevp);
    }

    // A block of exactly the size asked for leaves the list.
    method TakeWhole(p: nat, prevp: nat, ghost k: nat)
      requires Valid() && freep.Some? && 0 < k < |g.fl| && p == g.fl[k] && prevp == g.fl[k - 1] && p < |size|
      modifies this`ptr, this`g, this`freep
      ensures Valid() && freep == Some(prevp)
      ensures p !in old(g.live) && g.live == old(g.live) + {p} && g.home.Keys == old(g.home.Keys)
      ensures p in old(g.home) && old(g.home)[p] == p
      ensures forall h :: h in old(g.live) ==> h < |size|
      ensures Untouched(old(g), old(ptr), old(size), g.live, ptr, size)
    {
      HeadHome(g, prevp);
      assert Pos(k) && Pos(k - 1) && Head(p) && Unit(p) && Pos(0);
      Increasing(g, 0, k);
      forall h | h in g.live ensures h < |size| && h != p { assert Head(h); }
      TakeValid(g, k);
      RingDrop(ptr, g, k - 1);
      assert g.fl[..k - 1 + 1] + g.fl[k - 1 + 2..] == g.fl[..k] + g.fl[k + 1..];
      ptr := ptr[prevp := ptr[p]];
      g := Take(g, k);
      assert g.fl[k - 1] == prevp;
      freep := Some(prevp);
    }

    // The tail end of a larger block.
    method TakeTail(p: nat, prevp: nat, n: nat, ghost k: nat) returns (q: nat)
      requires Valid() && freep.Some? && 0 < k < |g.fl| && p == g.fl[k] && prevp == g.fl[k - 1] && p < |size|
      requires 0 < n < size[p]
      modifies this`size, this`g, this`freep
      ensures Valid() && freep == Some(prevp) && |size| == |old(size)|
      ensures q < |size| && size[q] == n && q !in old(g.live) && g.live == old(g.live) + {q}
      ensures g.home.Keys == old(g.home.Keys)
      ensures q in old(g.home) && old(g.home)[q] == p
      ensures forall h :: h in old(g.live) ==> h < |size| && size[h] == old(size)[h]
      ensures Untouched(old(g), old(ptr), old(size), g.live, ptr, size)
    {
      HeadHome(g, p);
      assert Pos(k) && Pos(k - 1) && Head(p) && Unit(p) && Pos(0);
      Increasing(g, 0, k);
      forall h | h in g.live ensures h < |size| && h != p { assert Head(h); }
      TailOf(g, k, n);
      SplitValid(g, k, n);
      g := Split(g, k, n);
      size := size[p := size[p] - n];
      q := p + size[p];
      size := size[q := n];
      assert g.fl[k - 1] == prevp;
      freep := Some(prevp);
    }

    /**
      malloc. brk is what sbrk returns if it is called. The result is a new
      live block of exactly the units asked for, disjoint from every other;
      it is null only when no free block is large enough and sbrk fails.
      sbrk is not called when a free block is large enough, and at most once.
     */
    method Malloc(nbytes: nat, brk: Option<nat>) returns (r: Option<nat>)
      requires Valid() && (brk.Some? ==> brk.value >= |size|)
      requires Units(UnitsFor(nbytes)) * HEADER < 0x8000_0000
      modifies this
      ensures Valid() && freep.Some? && |size| >= |old(size)|
      ensures r.Some? ==> r.value > 0 && r.value - 1 < |size| && size[r.value - 1] == UnitsFor(nbytes)
      ensures r.Some? ==> r.value - 1 !in old(g.live) && g.live == old(g.live) + {r.value - 1}
      ensures forall h :: h in old(g.live) ==> h < |old(size)| && size[h] == old(size)[h]
      ensures Untouched(old(g), old(ptr), old(size), g.live, ptr, size)
      ensures old(HasRoom(UnitsFor(nbytes))) ==> r.Some? && |size| == |old(size)| && g.home.Keys == old(g.home.Keys)
      ensures !old(HasRoom(UnitsFor(nbytes))) ==> (r.None? <==> brk.None?)
      ensures !old(HasRoom(UnitsFor(nbytes))) && brk.Some? ==>
                forall u :: u in g.home <==> u in old(g.home) || brk.value <= u < brk.value + Units(UnitsFor(nbytes))
      ensures r.None? ==> g == old(g)
    {
      var n := UnitsFor(nbytes);
      if freep.None? {
        Start();
      }
      StartUntouched(old(g), old(ptr), ptr);
      forall h | h in g.live ensures h < |size| { assert Head(h); }
      var p, prevp;
      ghost var k;
      var found;
      found, p, prevp, k := Scan(n);
      ghost var ptr0 := ptr;
      if !found {
        var ok := Morecore(n, brk);
        if !ok { return None; }
        UntouchedThen(old(g), old(ptr), old(g), ptr0, g.live, ptr, size);
        found, p, prevp, k := Scan(n);
      }
      ghost var g1, ptr1 := g, ptr;
      var q := Carve(p, prevp, n, k);
      UntouchedThen(old(g), old(ptr), g1, ptr1, g.live, ptr, size);
      r := Some(q + 1);
    }

    // Set up the empty list.
    method Start()
      requires Valid() && freep.None?
      modifies this`ptr, this`freep
      ensures Valid() && freep == Some(0) && ptr == old(ptr)[0 := 0]
    {
      ptr, freep := ptr[0 := 0], Some(0);
    }

    ghost predicate HasRoom(n: nat)
      reads this
    {
      exists k :: 0 <= k < |g.fl| && g.fl[k] < |size| && size[g.fl[k]] >= n
    }

    // malloc's loop from freep on, until a block is large enough or the walk
    // comes back to freep.
    method Scan(n: nat) returns (found: bool, p: nat, prevp: nat, ghost k: nat)
      requires Valid() && freep.Some? && n > 0
      ensures found <==> HasRoom(n)
      ensures found ==> 0 < k < |g.fl| && p == g.fl[k] && prevp == g.fl[k - 1] && p < |size| && size[p] >= n
    {
      prevp := freep.value;
      ghost var s :| 0 <= s < |g.fl| && g.fl[s] == prevp;
      assert Pos(s);
      p := ptr[prevp];
      k := if s + 1 < |g.fl| then s + 1 else 0;
      assert Pos(k);
      while true
        invariant 0 <= k < |g.fl| && p == g.fl[k] < |size| && Pos(k)
        invariant prevp == g.fl[if k > 0 then k - 1 else |g.fl| - 1]
        invariant forall j :: 0 <= j < |g.fl| && Passed(s, k, j) ==> g.fl[j] < |size| && size[g.fl[j]] < n
        decreases if k <= s then s - k else |g.fl| - k + s
      {
        if size[p] >= n {
          return true, p, prevp, k;
        }
        if p == freep.value {
          OnlyAt(g, k, p);
          assert k == s;
          return false, p, prevp, k;
        }
        prevp := p;
        p := ptr[p];
        k := if k + 1 < |g.fl| then k + 1 else 0;
        assert Pos(k);
      }
    }
  }

  // Position j has been visited on the way from behind s to k.
  predicate Passed(s: int, k: int, j: int) { if k > s then s < j < k else j > s || j < k }

  // The units of a request: its bytes, rounded up, and a header.
  function UnitsFor(nbytes: nat): (n: nat)
    ensures n > 0 && (n - 1) * HEADER >= nbytes && (n >= 2 ==> (n - 2) * HEADER < nbytes)
  {
    (nbytes + HEADER - 1) / HEADER + 1
  }

  // What morecore asks sbrk for.
  function Units(nunits: nat): nat { if nunits < 4096 then 4096 else nunits }

  // The size and ptr fields after free's first conditional.
  ghost function RightSizes(size: seq<nat>, nx: nat, bp: nat): seq<nat>
    requires bp < |size| && nx < |size|
  {
    if bp + size[bp] == nx then size[bp := size[bp] + size[nx]] else size
  }

  ghost function RightPtrs(ptr: seq<nat>, size: seq<nat>, nx: nat, bp: nat): seq<nat>
    requires bp < |size| == |ptr| && nx < |size|
  {
    if bp + size[bp] == nx then ptr[bp := ptr[nx]] else ptr[bp := nx]
  }

  // free's first conditional makes bp stand for itself and the right
  // neighbour it touches.
  lemma LinksRight(ptr: seq<nat>, g: Geo, t: nat, bp: nat)
    requires g.Valid() && g.Apart() && Ring(ptr, g.fl) && |ptr| == |g.size| && bp in g.live
    requires t < |g.fl| && g.fl[t] < bp && (t + 1 < |g.fl| ==> bp < g.fl[t + 1])
    ensures bp < |g.size| && g.fl[t] < |ptr| && ptr[g.fl[t]] == Nxt(g.fl, t) < |ptr|
    ensures forall k :: 0 <= k < |g.fl| ==> g.fl[k] < |g.size|
    ensures Absorbed(g, t, bp).size == RightSizes(g.size, ptr[g.fl[t]], bp)
    ensures Ring(RightPtrs(ptr, g.size, ptr[g.fl[t]], bp)[g.fl[t] := bp], Absorbed(g, t, bp).fl)
  {
    InRange(g, bp);
    assert Head(bp) && Pos(t) && Pos(t + 1) && Pos(0);
    var p, nx := g.fl[t], ptr[g.fl[t]];
    var g1, ptr1 := Insert(g, t, bp), ptr[bp := nx][p := bp];
    InsertValid(g, t, bp);
    RingInsert(ptr, g, t, bp);
    if bp + g.size[bp] == nx {
      assert g1.fl[t + 1] == bp && g1.fl[t + 2] == nx;
      RingDrop(ptr1, g1, t + 1);
      assert g1.fl[..t + 2] + g1.fl[t + 3..] == Absorbed(g, t, bp).fl;
      assert ptr1[bp := ptr1[nx]] == ptr[bp := ptr[nx]][p := bp];
    }
  }

  // The second conditional lets p absorb it in turn, if they touch.
  lemma LinksLeft(ptr: seq<nat>, g: Geo, t: nat, bp: nat)
    requires g.Valid() && Ring(ptr, g.fl) && |ptr| == |g.size| && t + 1 < |g.fl| && g.fl[t + 1] == bp && bp < |ptr|
    requires g.fl[t] < |ptr| && g.fl[t] + g.size[g.fl[t]] == bp
    ensures Ring(ptr[g.fl[t] := ptr[bp]], Merge(g, t).fl)
  {
    RingDrop(ptr, g, t);
  }
}
