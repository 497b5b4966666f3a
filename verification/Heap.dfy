/**
  The user-level heap allocator (user/umalloc.c). Memory is an array of header
  units; a pointer is a unit number; unit 0 is the static header `base`, below
  every block. Geometry first, as values; module Umalloc has the code.
 */
module Heap {
  // size: the size field of every unit. fl: the free list in address order,
  // base first. live: headers of allocated blocks. home: the block of every
  // unit obtained from sbrk.
  datatype Geo = Geo(size: seq<nat>, fl: seq<nat>, live: set<nat>, home: map<nat, nat>) {

    ghost predicate IsBlock(h: int) { 0 < h < |size| && (h in fl || h in live) }

    ghost predicate ListOk() {
      && |fl| > 0 && |size| > 0 && fl[0] == 0 && size[0] == 0
      && (forall k {:trigger Pos(k)} :: Pos(k) && 0 <= k < |fl| ==>
            fl[k] < |size| && fl[k] !in live && (k > 0 ==> size[fl[k]] > 0))
      && (forall k {:trigger Pos(k)} :: Pos(k) && 0 <= k < |fl| - 1 ==>
            fl[k] < fl[k + 1] && fl[k] + size[fl[k]] <= fl[k + 1])
    }

    // Blocks lie in address order without overlap and cover exactly the
    // units obtained; a block is free or live, not both.
    ghost predicate Valid() {
      && ListOk()
      && (forall h {:trigger Head(h)} :: Head(h) && h in live ==> 0 < h < |size| && size[h] > 0)
      && (forall h, u {:trigger Head(h), Unit(u)} :: Head(h) && Unit(u) && IsBlock(h) && h <= u < h + size[h] ==>
            u in home && home[u] == h)
      && (forall u {:trigger Unit(u)} :: Unit(u) && u in home ==>
            0 < u < |size| && IsBlock(home[u]) && home[u] <= u < home[u] + size[home[u]])
    }

    // No two free blocks touch.
    ghost predicate Apart() {
      forall k {:trigger Pos(k)} :: Pos(k) && 0 <= k < |fl| - 1 ==> fl[k] < |size| && fl[k] + size[fl[k]] < fl[k + 1]
    }
  }

  // Always true; the handles by which the quantifiers are instantiated.
  ghost predicate Pos(k: int) { true }
  ghost predicate Head(h: int) { true }
  ghost predicate Unit(u: int) { true }

  lemma {:induction false} Increasing(g: Geo, a: nat, b: nat)
    requires g.ListOk() && a < b < |g.fl|
    ensures g.fl[a] < g.fl[b] && g.fl[a] < |g.size| && g.fl[a] + g.size[g.fl[a]] <= g.fl[b]
    decreases b - a
  {
    assert Pos(a) && Pos(b - 1);
    if a + 1 < b {
      Increasing(g, a, b - 1);
    }
  }

  // A list member occurs once.
  lemma OnlyAt(g: Geo, k: nat, h: nat)
    requires g.ListOk() && k < |g.fl| && g.fl[k] == h
    ensures h !in g.fl[..k] && h !in g.fl[k + 1..]
  {
    forall a | 0 <= a < |g.fl| && a != k ensures g.fl[a] != h {
      if a < k {
        Increasing(g, a, k);
      } else {
        Increasing(g, k, a);
      }
    }
  }

  // Two blocks, free or live, share no unit, and every unit of a block was
  // obtained from sbrk.
  lemma NoOverlap(g: Geo, h: nat, h': nat, u: nat)
    requires g.Valid() && g.IsBlock(h) && g.IsBlock(h') && h <= u < h + g.size[h] && h' <= u < h' + g.size[h']
    ensures h == h' && u in g.home
  {
    assert Head(h) && Head(h') && Unit(u);
  }

  // Every unit obtained is in a block.
  lemma Covered(g: Geo, u: nat)
    requires g.Valid() && u in g.home
    ensures exists h :: g.IsBlock(h) && h <= u < h + g.size[h]
  {
    assert Unit(u);
    assert g.IsBlock(g.home[u]);
  }

  // -------------------------------------------------------- changes of shape

  // A live block joins the list behind position i.
  ghost function Insert(g: Geo, i: nat, bp: nat): Geo
    requires i < |g.fl|
  {
    g.(fl := g.fl[..i + 1] + [bp] + g.fl[i + 1..], live := g.live - {bp})
  }

  lemma InsertList(g: Geo, i: nat, bp: nat)
    requires g.Valid() && bp in g.live && i < |g.fl| && g.fl[i] < bp && (i + 1 < |g.fl| ==> bp < g.fl[i + 1])
    ensures Insert(g, i, bp).ListOk()
    ensures forall k {:trigger Pos(k)} :: Pos(k) && 0 <= k < |g.fl| ==>
              Insert(g, i, bp).fl[if k <= i then k else k + 1] == g.fl[k]
  {
    var g' := Insert(g, i, bp);
    assert Head(bp) && Unit(bp) && Pos(i) && Pos(i + 1) && Head(g.fl[i]);
    if i + 1 < |g.fl| {
      assert Unit(g.fl[i + 1]) && Head(g.fl[i + 1]);
    }
    forall k {:trigger Pos(k)} | Pos(k) && 0 <= k < |g'.fl|
      ensures g'.fl[k] < |g'.size| && g'.fl[k] !in g'.live && (k > 0 ==> g'.size[g'.fl[k]] > 0)
      ensures k < |g'.fl| - 1 ==> g'.fl[k] < g'.fl[k + 1] && g'.fl[k] + g'.size[g'.fl[k]] <= g'.fl[k + 1]
    {
      assert Pos(k - 1);
    }
  }

  lemma InsertValid(g: Geo, i: nat, bp: nat)
    requires g.Valid() && bp in g.live && i < |g.fl| && g.fl[i] < bp && (i + 1 < |g.fl| ==> bp < g.fl[i + 1])
    ensures Insert(g, i, bp).Valid()
  {
    InsertList(g, i, bp);
    var g' := Insert(g, i, bp);
    assert Head(bp);
    assert forall h :: h in g'.fl <==> h in g.fl || h == bp;
    assert forall h :: g'.IsBlock(h) <==> g.IsBlock(h);
  }

  // The block behind position k absorbs its right neighbour.
  ghost function Merge(g: Geo, k: nat): Geo
    requires k + 1 < |g.fl| && g.fl[k] < |g.size| && g.fl[k + 1] < |g.size|
  {
    var p, q := g.fl[k], g.fl[k + 1];
    Geo(g.size[p := g.size[p] + g.size[q]], g.fl[..k + 1] + g.fl[k + 2..], g.live,
        map u | u in g.home :: if g.home[u] == q then p else g.home[u])
  }

  lemma MergeList(g: Geo, k: nat)
    requires g.Valid() && 0 < k && k + 1 < |g.fl| && g.fl[k] < |g.size| && g.fl[k] + g.size[g.fl[k]] == g.fl[k + 1]
    ensures g.fl[k + 1] < |g.size| && Merge(g, k).ListOk()
  {
    assert Pos(k) && Pos(k + 1);
    var g' := Merge(g, k);
    Increasing(g, 0, k);
    OnlyAt(g, k, g.fl[k]);
    forall j {:trigger Pos(j)} | Pos(j) && 0 <= j < |g'.fl|
      ensures g'.fl[j] < |g'.size| && g'.fl[j] !in g'.live && (j > 0 ==> g'.size[g'.fl[j]] > 0)
      ensures j < |g'.fl| - 1 ==> g'.fl[j] < g'.fl[j + 1] && g'.fl[j] + g'.size[g'.fl[j]] <= g'.fl[j + 1]
    {
      assert Pos(j + 1);
      assert j != k ==> g'.fl[j] != g.fl[k];
    }
  }

  lemma MergeValid(g: Geo, k: nat)
    requires g.Valid() && 0 < k && k + 1 < |g.fl| && g.fl[k] < |g.size| && g.fl[k] + g.size[g.fl[k]] == g.fl[k + 1]
    ensures g.fl[k + 1] < |g.size| && Merge(g, k).Valid() && Merge(g, k).home.Keys == g.home.Keys
  {
    MergeList(g, k);
    var p, q := g.fl[k], g.fl[k + 1];
    var g' := Merge(g, k);
    OnlyAt(g, k, p);
    OnlyAt(g, k + 1, q);
    assert Pos(k) && Pos(k + 1) && Head(p) && Head(q) && Pos(0);
    Increasing(g, 0, k);
    assert forall h :: h in g'.fl <==> h in g.fl && h != q by {
      assert g.fl == g.fl[..k + 1] + [q] + g.fl[k + 2..];
      assert g.fl[k + 2..] == g.fl[k + 1 + 1..];
    }
    assert forall h :: g'.IsBlock(h) <==> g.IsBlock(h) && h != q;
  }

  // The whole block at position k becomes live.
  ghost function Take(g: Geo, k: nat): Geo
    requires k < |g.fl|
  {
    g.(fl := g.fl[..k] + g.fl[k + 1..], live := g.live + {g.fl[k]})
  }

  lemma TakeValid(g: Geo, k: nat)
    requires g.Valid() && g.Apart() && 0 < k < |g.fl|
    ensures Take(g, k).Valid() && Take(g, k).Apart()
  {
    var g' := Take(g, k);
    var p := g.fl[k];
    OnlyAt(g, k, p);
    assert Pos(k) && Pos(k - 1) && Pos(0);
    Increasing(g, 0, k);
    forall j {:trigger Pos(j)} | Pos(j) && 0 <= j < |g'.fl|
      ensures g'.fl[j] < |g'.size| && g'.fl[j] !in g'.live && (j > 0 ==> g'.size[g'.fl[j]] > 0)
      ensures j < |g'.fl| - 1 ==> g'.fl[j] + g'.size[g'.fl[j]] < g'.fl[j + 1]
    {
      assert Pos(j + 1);
    }
    assert g.fl == g.fl[..k] + [p] + g.fl[k + 1..];
    assert forall h :: h in g'.fl <==> h in g.fl && h != p;
    assert forall h :: g'.IsBlock(h) <==> g.IsBlock(h);
  }

  // The last n units of the block at position k become a live block.
  ghost function Split(g: Geo, k: nat, n: nat): Geo
    requires k < |g.fl| && g.fl[k] < |g.size| && n < g.size[g.fl[k]] && g.fl[k] + g.size[g.fl[k]] - n < |g.size|
  {
    var p := g.fl[k];
    var q := p + g.size[p] - n;
    Geo(g.size[p := g.size[p] - n][q := n], g.fl, g.live + {q},
        map u | u in g.home :: if g.home[u] == p && u >= q then q else g.home[u])
  }

  // The tail of a free block is memory of that block only.
  lemma TailOf(g: Geo, k: nat, n: nat)
    requires g.Valid() && 0 < k < |g.fl| && g.fl[k] < |g.size| && 0 < n < g.size[g.fl[k]]
    ensures var q := g.fl[k] + g.size[g.fl[k]] - n;
            q < |g.size| && q !in g.fl && q !in g.live && q > 0 && q in g.home && g.home[q] == g.fl[k]
  {
    var p := g.fl[k];
    var q := p + g.size[p] - n;
    assert Pos(k) && Head(p) && Unit(q) && Pos(0);
    Increasing(g, 0, k);
    if q in g.fl {
      var j :| 0 <= j < |g.fl| && g.fl[j] == q;
      if j < k { Increasing(g, j, k); } else if j > k { Increasing(g, k, j); }
    }
    if q in g.live {
      assert Head(q);
    }
  }

  lemma SplitValid(g: Geo, k: nat, n: nat)
    requires g.Valid() && g.Apart() && 0 < k < |g.fl| && g.fl[k] < |g.size| && 0 < n < g.size[g.fl[k]]
    ensures g.fl[k] + g.size[g.fl[k]] - n < |g.size|
    ensures Split(g, k, n).Valid() && Split(g, k, n).Apart() && Split(g, k, n).home.Keys == g.home.Keys
  {
    TailOf(g, k, n);
    var p := g.fl[k];
    var q := p + g.size[p] - n;
    var g' := Split(g, k, n);
    OnlyAt(g, k, p);
    assert Pos(k) && Head(p) && Head(q) && Pos(0);
    Increasing(g, 0, k);
    forall j {:trigger Pos(j)} | Pos(j) && 0 <= j < |g'.fl|
      ensures g'.fl[j] < |g'.size| && g'.fl[j] !in g'.live && (j > 0 ==> g'.size[g'.fl[j]] > 0)
      ensures j < |g'.fl| - 1 ==> g'.fl[j] + g'.size[g'.fl[j]] < g'.fl[j + 1]
    {
      assert j != k ==> g.fl[j] != p;
    }
    assert forall h :: g'.IsBlock(h) <==> g.IsBlock(h) || h == q;
    SplitHome(g, k, n);
  }

  lemma SplitHome(g: Geo, k: nat, n: nat)
    requires g.Valid() && 0 < k < |g.fl| && g.fl[k] < |g.size| && 0 < n < g.size[g.fl[k]]
    requires g.fl[k] + g.size[g.fl[k]] - n < |g.size|
    ensures var g' := Split(g, k, n);
            && (forall h, u {:trigger Head(h), Unit(u)} ::
                 Head(h) && Unit(u) && g'.IsBlock(h) && h <= u < h + g'.size[h] ==>
                  u in g'.home && g'.home[u] == h)
            && (forall u {:trigger Unit(u)} :: Unit(u) && u in g'.home ==>
                  0 < u < |g'.size| && g'.IsBlock(g'.home[u]) && g'.home[u] <= u < g'.home[u] + g'.size[g'.home[u]])
  {
    TailOf(g, k, n);
    var p := g.fl[k];
    assert Pos(k) && Head(p) && Pos(0);
    Increasing(g, 0, k);
  }

  // sbrk hands out nu units at start, at or above every unit so far; size
  // fields of new memory are arbitrary except the header that morecore fills.
  ghost function Grow(g: Geo, start: nat, nu: nat, mem: seq<nat>): Geo
    requires |g.size| <= start < start + nu && |mem| == start + nu - |g.size|
  {
    Geo((g.size + mem)[start := nu], g.fl, g.live + {start},
        g.home + map u {:trigger Unit(u)} | start <= u < start + nu && Unit(u) :: start)
  }

  lemma GrowValid(g: Geo, start: nat, nu: nat, mem: seq<nat>)
    requires g.Valid() && g.Apart() && |g.size| <= start < start + nu && |mem| == start + nu - |g.size|
    ensures Grow(g, start, nu, mem).Valid() && Grow(g, start, nu, mem).Apart()
    ensures forall u :: u in Grow(g, start, nu, mem).home <==> u in g.home || start <= u < start + nu
  {
    var g' := Grow(g, start, nu, mem);
    forall j {:trigger Pos(j)} | Pos(j) && 0 <= j < |g.fl| ensures g.fl[j] != start {
    }
    assert start !in g.fl by {
      forall j | 0 <= j < |g.fl| ensures g.fl[j] != start { assert Pos(j); }
    }
    assert start !in g.live by { assert Head(start); }
    assert forall h :: g.IsBlock(h) ==> g'.size[h] == g.size[h];
    assert forall h :: g'.IsBlock(h) <==> g.IsBlock(h) || h == start by {
      forall h | g'.IsBlock(h) ensures g.IsBlock(h) || h == start {
        if h in g.fl {
          var j :| 0 <= j < |g.fl| && g.fl[j] == h;
          assert Pos(j);
        } else if h != start {
          assert Head(h);
        }
      }
    }
  }

  // ----------------------------------------------------------- freeing whole

  // free's effect: insert, absorb the right neighbour if adjacent, let the
  // left one absorb the result if adjacent.
  ghost function Freed(g: Geo, i: nat, bp: nat): Geo
    requires i < |g.fl| && bp < |g.size| && forall k :: 0 <= k < |g.fl| ==> g.fl[k] < |g.size|
  {
    var g2 := Absorbed(g, i, bp);
    if |g2.fl| > i + 1 && g.fl[i] + g.size[g.fl[i]] == bp && g2.fl[i] < |g2.size| && g2.fl[i + 1] < |g2.size|
    then Merge(g2, i) else g2
  }

  ghost predicate ApartOff(g: Geo, i: nat) {
    forall k {:trigger Pos(k)} :: Pos(k) && 0 <= k < |g.fl| - 1 && k != i ==>
      g.fl[k] < |g.size| && g.fl[k] + g.size[g.fl[k]] < g.fl[k + 1]
  }

  ghost predicate ApartOff2(g: Geo, i: nat) {
    forall k {:trigger Pos(k)} :: Pos(k) && 0 <= k < |g.fl| - 1 && k != i && k != i + 1 ==>
      g.fl[k] < |g.size| && g.fl[k] + g.size[g.fl[k]] < g.fl[k + 1]
  }

  lemma InsertApart(g: Geo, i: nat, bp: nat)
    requires g.Valid() && g.Apart() && i < |g.fl|
    ensures ApartOff2(Insert(g, i, bp), i)
  {
    var g1 := Insert(g, i, bp);
    forall k {:trigger Pos(k)} | Pos(k) && 0 <= k < |g1.fl| - 1 && k != i && k != i + 1
      ensures g1.fl[k] < |g1.size| && g1.fl[k] + g1.size[g1.fl[k]] < g1.fl[k + 1]
    {
      assert Pos(k - 1);
    }
  }

  // The list with bp inserted and its right neighbour absorbed if adjacent.
  ghost function Absorbed(g: Geo, i: nat, bp: nat): Geo
    requires i < |g.fl| && bp < |g.size| && forall k :: 0 <= k < |g.fl| ==> g.fl[k] < |g.size|
  {
    var g1 := Insert(g, i, bp);
    if i + 1 < |g.fl| && bp + g.size[bp] == g.fl[i + 1] then Merge(g1, i + 1) else g1
  }

  lemma InRange(g: Geo, bp: nat)
    requires g.Valid() && bp in g.live
    ensures bp < |g.size| && forall k :: 0 <= k < |g.fl| ==> g.fl[k] < |g.size|
  {
    assert Head(bp);
    forall k | 0 <= k < |g.fl| ensures g.fl[k] < |g.size| { assert Pos(k); }
  }

  // After it only the left gap may still be closed.
  lemma AbsorbRight(g: Geo, i: nat, bp: nat)
    requires g.Valid() && g.Apart() && bp in g.live && i < |g.fl| && g.fl[i] < bp
    requires i + 1 < |g.fl| ==> bp < g.fl[i + 1]
    ensures bp < |g.size| && forall k :: 0 <= k < |g.fl| ==> g.fl[k] < |g.size|
    ensures var g2 := Absorbed(g, i, bp);
            && g2.Valid() && ApartOff(g2, i) && g2.home.Keys == g.home.Keys
            && |g2.fl| > i + 1 && g2.fl[i] == g.fl[i] && g2.fl[i + 1] == bp && g2.size[g.fl[i]] == g.size[g.fl[i]]
            && g2.live == g.live - {bp}
  {
    InRange(g, bp);
    var g1 := Insert(g, i, bp);
    InsertValid(g, i, bp);
    InsertApart(g, i, bp);
    if i + 1 < |g.fl| {
      assert Pos(i + 1) && g1.fl[i + 2] == g.fl[i + 1];
      if bp + g.size[bp] == g.fl[i + 1] {
        MergeValid(g1, i + 1);
        MergeApart(g1, i);
      }
    }
  }

  lemma MergeApart(g: Geo, i: nat)
    requires g.Valid() && i + 2 < |g.fl| && g.fl[i] < |g.size| && g.fl[i + 1] < |g.size| && g.fl[i + 2] < |g.size|
    requires g.fl[i + 1] + g.size[g.fl[i + 1]] == g.fl[i + 2]
    requires ApartOff2(g, i)
    ensures ApartOff(Merge(g, i + 1), i) && Merge(g, i + 1).size[g.fl[i]] == g.size[g.fl[i]]
  {
    var g' := Merge(g, i + 1);
    OnlyAt(g, i + 1, g.fl[i + 1]);
    forall k {:trigger Pos(k)} | Pos(k) && 0 <= k < |g'.fl| - 1 && k != i
      ensures g'.fl[k] < |g'.size| && g'.fl[k] + g'.size[g'.fl[k]] < g'.fl[k + 1]
    {
      assert Pos(k + 1);
      assert k != i + 1 ==> g'.fl[k] != g.fl[i + 1];
    }
    assert g.fl[..i + 1][i] == g.fl[i];
  }

  lemma FreedValid(g: Geo, i: nat, bp: nat)
    requires g.Valid() && g.Apart() && bp in g.live && i < |g.fl| && g.fl[i] < bp
    requires i + 1 < |g.fl| ==> bp < g.fl[i + 1]
    ensures bp < |g.size| && forall k :: 0 <= k < |g.fl| ==> g.fl[k] < |g.size|
    ensures var g' := Freed(g, i, bp);
            g'.Valid() && g'.Apart() && g'.home.Keys == g.home.Keys && g'.live == g.live - {bp}
  {
    AbsorbRight(g, i, bp);
    var g2 := Absorbed(g, i, bp);
    assert Pos(i);
    if g.fl[i] + g.size[g.fl[i]] == bp {
      MergeValid(g2, i);
      MergeLeft(g2, i);
    } else {
      assert g2.fl[i] + g2.size[g2.fl[i]] < g2.fl[i + 1];
    }
  }

  lemma MergeLeft(g: Geo, i: nat)
    requires g.Valid() && ApartOff(g, i) && i + 1 < |g.fl| && g.fl[i] < |g.size| && g.fl[i + 1] < |g.size|
    requires g.fl[i] + g.size[g.fl[i]] == g.fl[i + 1]
    ensures Merge(g, i).Apart()
  {
    var g' := Merge(g, i);
    OnlyAt(g, i, g.fl[i]);
    forall k {:trigger Pos(k)} | Pos(k) && 0 <= k < |g'.fl| - 1
      ensures g'.fl[k] < |g'.size| && g'.fl[k] + g'.size[g'.fl[k]] < g'.fl[k + 1]
    {
      assert Pos(k + 1);
      assert k != i ==> g'.fl[k] != g.fl[i];
    }
  }

  // Freeing gives the list a block at least as large, and leaves the size of
  // every other live block alone.
  lemma FreedRoom(g: Geo, i: nat, bp: nat)
    requires g.Valid() && g.Apart() && bp in g.live && i < |g.fl| && g.fl[i] < bp
    requires i + 1 < |g.fl| ==> bp < g.fl[i + 1]
    ensures bp < |g.size| && forall k :: 0 <= k < |g.fl| ==> g.fl[k] < |g.size|
    ensures var g' := Freed(g, i, bp);
            && (exists k :: 0 <= k < |g'.fl| && g'.fl[k] < |g'.size| && g'.size[g'.fl[k]] >= g.size[bp])
            && |g'.size| == |g.size|
            && forall h :: h in g.live && h != bp ==> h < |g.size| && g'.size[h] == g.size[h]
  {
    AbsorbRight(g, i, bp);
    var g2 := Absorbed(g, i, bp);
    var g' := Freed(g, i, bp);
    assert Pos(i);
    if g.fl[i] + g.size[g.fl[i]] == bp {
      assert g'.fl[i] == g2.fl[i] && g'.size[g'.fl[i]] >= g.size[bp];
    } else {
      assert g'.fl[i + 1] == bp && g'.size[g'.fl[i + 1]] >= g.size[bp];
    }
    forall h | h in g.live && h != bp ensures h < |g.size| && g'.size[h] == g.size[h] {
      assert Head(h) && Pos(i + 1);
    }
  }
}
