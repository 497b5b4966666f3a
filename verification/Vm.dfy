/** The user address spaces over the page allocator (kernel/vm.c). */
module Vm {
  import opened Params
  import opened PageTable
  import opened Kalloc

  // MAXVA in pages: 1 << (9 + 12 - 1) bytes.
  const MAXPAGES := 256

  // Always true; the handle by which facts about pages of RAM are used.
  ghost predicate AtRam(p: Page) { true }

  function At(data: Ram, p: Page): seq<bv8> { if p in data then data[p] else [] }

  // The contents of every page in use are kept.
  ghost predicate Kept(own: map<Page, Owner>, data: Ram, data': Ram) {
    forall q: Page {:trigger AtRam(q)} :: AtRam(q) && q in own && own[q] != Free ==> At(data', q) == At(data, q)
  }

  // Dropped the high half: the flags of uvmcopy pass through a 32-bit variable.
  function Low(f: Flags): Flags { f.(high := 0) }

  function On(f: Flags): Flags { f.(v := true) }

  function NoUser(f: Flags): Flags { f.(plv := 0) }

  // -------------------------------------------------------- walking the tree

  // The bits of page number v above those indexed below level l.
  function Prefix(l: nat, v: nat): nat
    requires l <= 4
  {
    if l == 0 then v else if l == 1 then v / 512 else if l == 2 then v / 262144
    else if l == 3 then v / 134217728 else v / 68719476736
  }

  // PX
  function Px(l: nat, v: nat): (i: nat)
    requires l <= 3
    ensures i < 512
  {
    Prefix(l, v) % 512
  }

  // The table that walk looks into at level l.
  function OnPath(r: Page, l: nat, v: nat): Key
    requires l <= 3
  {
    Key(r, l, Prefix(l + 1, v))
  }

  lemma PathStep(r: Page, l: nat, v: nat)
    requires 0 < l <= 3
    ensures Child(OnPath(r, l, v), Px(l, v)) == OnPath(r, l - 1, v)
  {
    assert v / 262144 == v / 512 / 512;
    assert v / 134217728 == v / 262144 / 512;
    assert v / 68719476736 == v / 134217728 / 512;
  }

  // ------------------------------------------------------- how much is left

  ghost function Frees(own: map<Page, Owner>): set<Page> { set p | p in own && own[p] == Free }

  lemma FreesUpdate(own: map<Page, Owner>, p: Page, o: Owner)
    requires p in own
    ensures |Frees(own[p := o])| == |Frees(own)| - (if own[p] == Free then 1 else 0) + (if o == Free then 1 else 0)
  {
    var own' := own[p := o];
    assert Frees(own') - {p} == Frees(own) - {p};
    assert |Frees(own') - {p}| == |Frees(own')| - if o == Free then 1 else 0;
    assert |Frees(own) - {p}| == |Frees(own)| - if own[p] == Free then 1 else 0;
  }

  // The tables that walk has yet to make before it reaches the pages below
  // MAXPAGES, all of which are in one leaf table.
  ghost function Missing(node: map<Key, Page>, r: Page): nat {
    (if Key(r, 2, 0) in node then 0 else 1) + (if Key(r, 1, 0) in node then 0 else 1)
    + (if Key(r, 0, 0) in node then 0 else 1)
  }

  // The free pages that are left for frames once those tables are made.
  ghost function Slack(s: S, r: Page): int { |Frees(s.own)| - Missing(s.node, r) }

  lemma LowPath(r: Page, l: nat, v: nat)
    requires l <= 3 && v < MAXPAGES
    ensures OnPath(r, l, v) == Key(r, l, 0) && LeafKey(r, v) == Key(r, 0, 0)
  {
  }

  lemma NoneFree(own: map<Page, Owner>)
    requires forall q: Page {:trigger AtRam(q)} :: AtRam(q) && q in own ==> own[q] != Free
    ensures Frees(own) == {}
  {
    forall q | q in own ensures own[q] != Free { assert AtRam(q); }
  }

  // A leaf table has all tables above it.
  lemma NoneMissing(s: S, r: Page)
    requires Nodes(s) && Key(r, 0, 0) in s.node
    ensures Missing(s.node, r) == 0
  {
    assert AtNode(Key(r, 0, 0)) && AtNode(Key(r, 1, 0)) && AtNode(Key(r, 2, 0));
  }

  // The tree at r may have gained tables, taken from the free pages, and
  // nothing else changed.
  ghost predicate Grew(s: S, s': S, r: Page) {
    && SameMap(s, s') && s'.own.Keys == s.own.Keys
    && (forall k :: k in s.node ==> k in s'.node && s'.node[k] == s.node[k])
    && (forall p {:trigger s'.own[p]} :: p in s.own ==>
          s'.own[p] == s.own[p] || (s.own[p] == Free && s'.own[p].Table? && s'.own[p].k.r == r))
  }

  // Pages lo to hi of the tree at r have been given frames of their own, taken
  // with any tables from the free pages; nothing else changed.
  ghost predicate Extended(s: S, s': S, r: Page, lo: nat, hi: nat) {
    && s'.own.Keys == s.own.Keys
    && (forall k :: k in s.node ==> k in s'.node && s'.node[k] == s.node[k])
    && (forall p {:trigger s'.own[p]} :: p in s.own ==>
          s'.own[p] == s.own[p] || (s.own[p] == Free && Within(s'.own[p], r, lo, hi)))
    && (forall v: nat {:trigger Lookup(s', r, v)} {:trigger OwnFrame(s', r, v)} :: lo <= v < hi ==> OwnFrame(s', r, v))
    && (forall r': Page, v: nat {:trigger Lookup(s', r', v)} :: !(r' == r && lo <= v < hi) ==>
          Lookup(s', r', v) == Lookup(s, r', v))
  }

  predicate Within(o: Owner, r: Page, lo: nat, hi: nat) {
    (o.Table? && o.k.r == r) || (o.Frame? && o.r == r && lo <= o.v < hi)
  }

  ghost predicate OwnFrame(s: S, r: Page, v: nat) {
    Present(Lookup(s, r, v)) && Lookup(s, r, v).ppn in s.own && s.own[Lookup(s, r, v).ppn] == Frame(r, v)
  }

  // Pages lo to hi of the tree at r are unmapped; their frames, if they had
  // any, now belong to o.
  ghost predicate Unmapped(s: S, s': S, r: Page, lo: nat, hi: nat, o: Owner) {
    && s'.own.Keys == s.own.Keys && s'.node == s.node
    && (forall p {:trigger s'.own[p]} :: p in s.own ==>
          s'.own[p] == if s.own[p].Frame? && Within(s.own[p], r, lo, hi) then o else s.own[p])
    && (forall r': Page, v: nat {:trigger Lookup(s', r', v)} ::
          Lookup(s', r', v) == if r' == r && lo <= v < hi then NoPte else Lookup(s, r', v))
  }

  lemma ExtendedTrans(s0: S, s1: S, s2: S, r: Page, lo: nat, m: nat, hi: nat)
    requires lo <= m <= hi && Extended(s0, s1, r, lo, m) && Extended(s1, s2, r, m, hi)
    ensures Extended(s0, s2, r, lo, hi)
  {
    forall v: nat {:trigger OwnFrame(s2, r, v)} | lo <= v < hi ensures OwnFrame(s2, r, v) {
      assert v < m ==> OwnFrame(s1, r, v) && Lookup(s2, r, v) == Lookup(s1, r, v);
    }
    forall r': Page, v: nat {:trigger Lookup(s2, r', v)} | !(r' == r && lo <= v < hi)
      ensures Lookup(s2, r', v) == Lookup(s0, r', v)
    {
      assert Lookup(s2, r', v) == Lookup(s1, r', v);
    }
  }

  lemma UnmappedTrans(s0: S, s1: S, s2: S, r: Page, lo: nat, m: nat, hi: nat, o: Owner)
    requires lo <= m <= hi && Unmapped(s0, s1, r, lo, m, o) && Unmapped(s1, s2, r, m, hi, o) && !o.Frame?
    ensures Unmapped(s0, s2, r, lo, hi, o)
  {
  }

  // An absent page is in no frame's name, and its entry is empty.
  lemma AbsentPage(s: S, r: Page, v: nat)
    requires Inv(s, {}) && !Present(Lookup(s, r, v))
    ensures Lookup(s, r, v) == NoPte
    ensures forall p {:trigger s.own[p]} :: p in s.own ==> s.own[p] != Frame(r, v)
  {
    assert AtEntry(LeafKey(r, v), v % 512) && AtNode(LeafKey(r, v));
    forall p | p in s.own ensures s.own[p] != Frame(r, v) { assert AtPage(p); }
  }

  /**
    Giving back what was added leaves every mapping as it was: the only pages
    still taken are tables of the tree at r.
   */
  lemma UndoneGrew(s0: S, s1: S, s2: S, r: Page, lo: nat, hi: nat)
    requires Inv(s0, {}) && Extended(s0, s1, r, lo, hi) && Unmapped(s1, s2, r, lo, hi, Free)
    requires forall v :: lo <= v < hi ==> !Present(Lookup(s0, r, v))
    ensures Grew(s0, s2, r)
  {
    forall v | lo <= v < hi
      ensures Lookup(s0, r, v) == NoPte && (forall p {:trigger s0.own[p]} :: p in s0.own ==> s0.own[p] != Frame(r, v))
    {
      AbsentPage(s0, r, v);
    }
  }

  // Page v of the tree at r is mapped by e. A taken page becomes its frame.
  ghost predicate MappedOne(s: S, s': S, r: Page, v: nat, e: Pte) {
    && s'.own.Keys == s.own.Keys
    && (forall k :: k in s.node ==> k in s'.node && s'.node[k] == s.node[k])
    && (forall p {:trigger s'.own[p]} :: p in s.own ==>
          if p == e.ppn then s'.own[p] == (if s.own[p] == Taken then Frame(r, v) else s.own[p])
          else s'.own[p] == s.own[p] || (s.own[p] == Free && s'.own[p].Table? && s'.own[p].k.r == r))
    && (forall r': Page, w: nat {:trigger Lookup(s', r', w)} ::
         Lookup(s', r', w) == if r' == r && w == v then e else Lookup(s, r', w))
  }

  // The first k of a run of pages from v on are mapped, to those from pa on.
  ghost predicate MappedRun(s: S, s': S, r: Page, v: nat, k: nat, pa: Page, perm: Flags) {
    && s'.own.Keys == s.own.Keys
    && (forall j :: j in s.node ==> j in s'.node && s'.node[j] == s.node[j])
    && (forall p {:trigger s'.own[p]} :: p in s.own ==>
          if pa <= p < pa + k then s'.own[p] == (if s.own[p] == Taken then Frame(r, v + (p - pa)) else s.own[p])
          else s'.own[p] == s.own[p] || (s.own[p] == Free && s'.own[p].Table? && s'.own[p].k.r == r))
    && (forall r': Page, w: nat {:trigger Lookup(s', r', w)} ::
          Lookup(s', r', w) == if r' == r && v <= w < v + k then Pte(pa + (w - v), On(perm)) else Lookup(s, r', w))
  }

  // What mappages needs of its i-th page: not mapped yet, and a page to map
  // that is taken, or the kernel's and then not for the user.
  ghost predicate Mappable(s: S, r: Page, v: nat, pa: Page, perm: Flags, i: nat) {
    && !Present(Lookup(s, r, v + i)) && pa + i in s.own
    && (s.own[pa + i] == Taken || (s.own[pa + i] == Held && !ForUser(Pte(pa + i, perm))))
  }

  lemma StillMappable(s0: S, s: S, r: Page, v: nat, i: nat, pa: Page, perm: Flags)
    requires MappedRun(s0, s, r, v, i, pa, perm) && Mappable(s0, r, v, pa, perm, i)
    ensures Mappable(s, r, v, pa, perm, i)
  {
    assert Lookup(s, r, v + i) == Lookup(s0, r, v + i);
  }

  // None of the n pages from pa on is free.
  ghost predicate InUse(s: S, pa: Page, n: nat) {
    forall p: Page {:trigger s.own[p]} {:trigger p in s.own} :: pa <= p < pa + n ==> p in s.own && s.own[p] != Free
  }

  lemma MappableInUse(s: S, r: Page, v: nat, pa: Page, perm: Flags, n: nat)
    requires forall i: nat {:trigger Mappable(s, r, v, pa, perm, i)} :: i < n ==> Mappable(s, r, v, pa, perm, i)
    ensures forall i: nat {:trigger InUse(s, pa, i)} :: i <= n ==> InUse(s, pa, i)
  {
    forall p: Page | pa <= p < pa + n
      ensures p in s.own && s.own[p] != Free
    {
      assert Mappable(s, r, v, pa, perm, p - pa);
    }
  }

  lemma RunThenOne(s0: S, s1: S, s2: S, r: Page, v: nat, i: nat, pa: Page, perm: Flags)
    requires MappedRun(s0, s1, r, v, i, pa, perm) && MappedOne(s1, s2, r, v + i, Pte(pa + i, On(perm)))
    requires InUse(s0, pa, i + 1)
    ensures MappedRun(s0, s2, r, v, i + 1, pa, perm)
  {
  }

  lemma RunThenGrew(s0: S, s1: S, s2: S, r: Page, v: nat, i: nat, pa: Page, perm: Flags)
    requires MappedRun(s0, s1, r, v, i, pa, perm) && Grew(s1, s2, r)
    requires InUse(s0, pa, i)
    ensures MappedRun(s0, s2, r, v, i, pa, perm)
  {
  }

  // A run of one page, or of none.
  lemma RunOfOne(s: S, s': S, r: Page, v: nat, k: nat, pa: Page, perm: Flags)
    requires MappedRun(s, s', r, v, k, pa, perm) && k <= 1
    ensures k == 1 ==> MappedOne(s, s', r, v, Pte(pa, On(perm)))
    ensures k == 0 ==> Grew(s, s', r)
  {
  }

  lemma MapOneKeeps(s0: S, s: S, r: Page, v: nat, e: Pte, o: Owner)
    requires Inv(s, {}) && Grew(s0, s, r) && LeafKey(r, v) in s.node && !Present(Lookup(s, r, v)) && Leaf(e)
    requires e.ppn in s0.own
    requires (s0.own[e.ppn] == Taken && o == Frame(r, v)) || (s0.own[e.ppn] == Held && o == Held && !ForUser(e))
    ensures AtNode(LeafKey(r, v)) && NodeOk(s, LeafKey(r, v))
    ensures Inv(SetLeaf(s, r, v, e, e.ppn, o), {}) && MappedOne(s0, SetLeaf(s, r, v, e, e.ppn, o), r, v, e)
  {
    assert AtNode(LeafKey(r, v));
    SetLeafKeeps(s, r, v, e, e.ppn, o);
  }

  // kalloc then mappages, from the state before both.
  lemma AddPageExtended(s0: S, s1: S, s2: S, r: Page, v: nat, e: Pte)
    requires e.ppn in s0.own && s0.own[e.ppn] == Free && Leaf(e) && s1 == s0.(own := s0.own[e.ppn := Taken])
    requires SameMap(s0, s1)
    requires MappedOne(s1, s2, r, v, e)
    ensures Extended(s0, s2, r, v, v + 1)
  {
  }

  // kalloc, a failed mappages and kfree.
  lemma AddPageUndone(s0: S, s1: S, s2: S, s3: S, r: Page, p: Page)
    requires p in s0.own && s0.own[p] == Free && s1 == s0.(own := s0.own[p := Taken]) && SameMap(s0, s1)
    requires Grew(s1, s2, r) && s3 == s2.(own := s2.own[p := Free]) && SameMap(s2, s3)
    ensures Grew(s0, s3, r)
  {
  }

  // What uvmunmap needs of page v: with do_free, a frame if it is mapped.
  ghost predicate Freeable(s: S, r: Page, v: nat, doFree: bool) {
    doFree && Present(Lookup(s, r, v)) ==> OwnFrame(s, r, v)
  }

  // What is below a has gone, and what is not is as it was.
  lemma StillFreeable(s0: S, s: S, r: Page, lo: nat, a: nat, doFree: bool)
    requires Unmapped(s0, s, r, lo, a, if doFree then Free else Taken) && lo <= a && Freeable(s0, r, a, doFree)
    ensures Lookup(s, r, a) == Lookup(s0, r, a) && Freeable(s, r, a, doFree)
  {
    assert Lookup(s, r, a) == Lookup(s0, r, a);
  }

  lemma UnmapOneKeeps(s: S, r: Page, v: nat, doFree: bool, o: Owner)
    requires Inv(s, {}) && Present(Lookup(s, r, v)) && Freeable(s, r, v, doFree)
    requires Lookup(s, r, v).ppn in s.own ==>
              o == if s.own[Lookup(s, r, v).ppn] == Held then Held else if doFree then Free else Taken
    ensures AtNode(LeafKey(r, v)) && LeafKey(r, v) in s.node && NodeOk(s, LeafKey(r, v)) && Lookup(s, r, v).ppn in s.own
    ensures Inv(SetLeaf(s, r, v, NoPte, Lookup(s, r, v).ppn, o), {})
    ensures Unmapped(s, SetLeaf(s, r, v, NoPte, Lookup(s, r, v).ppn, o), r, v, v + 1, if doFree then Free else Taken)
  {
    LeafIs(v);
    var e := Lookup(s, r, v);
    assert AtNode(LeafKey(r, v)) && AtEntry(LeafKey(r, v), v % 512);
    SetLeafKeeps(s, r, v, NoPte, e.ppn, o);
    forall p | p in s.own && s.own[p] == Frame(r, v) ensures p == e.ppn { assert AtPage(p); }
  }

  // P, W, PLV, MAT and D: what uvmalloc maps with.
  const USER := Flags(false, 0xC, 0x192, 0)

  // Page v of tree r' in s' is a copy of page v of tree r in s.
  ghost predicate CopiedPage(s: S, data: Ram, r: Page, s': S, data': Ram, r': Page, v: nat) {
    && Lookup(s', r', v).flags == Low(Lookup(s, r, v).flags)
    && At(data', Lookup(s', r', v).ppn) == At(data, Lookup(s, r, v).ppn)
  }

  // Pages lo to hi were mapped for the user and hold zeros.
  ghost predicate Zeroed(s: S, data: Ram, r: Page, lo: nat, hi: nat) {
    forall v: nat {:trigger Lookup(s, r, v)} :: lo <= v < hi ==>
      Lookup(s, r, v).flags == On(USER) && At(data, Lookup(s, r, v).ppn) == Filled(0)
  }

  // A frame stays as it was while other pages are added.
  lemma FrameKept(s: S, data: Ram, s': S, data': Ram, r: Page, m: nat, hi: nat, v: nat)
    requires v < m && OwnFrame(s, r, v) && Extended(s, s', r, m, hi) && Kept(s.own, data, data')
    ensures Lookup(s', r, v) == Lookup(s, r, v) && At(data', Lookup(s, r, v).ppn) == At(data, Lookup(s, r, v).ppn)
  {
    assert AtRam(Lookup(s, r, v).ppn);
  }

  lemma ZeroedMore(s0: S, s: S, data: Ram, s': S, data': Ram, r: Page, lo: nat, a: nat)
    requires Extended(s0, s, r, lo, a) && Zeroed(s, data, r, lo, a) && Extended(s, s', r, a, a + 1)
    requires Kept(s.own, data, data')
    requires Lookup(s', r, a).flags == On(USER) && At(data', Lookup(s', r, a).ppn) == Filled(0)
    ensures Zeroed(s', data', r, lo, a + 1)
  {
    forall v: nat | lo <= v < a
      ensures Lookup(s', r, v) == Lookup(s, r, v) && At(data', Lookup(s, r, v).ppn) == At(data, Lookup(s, r, v).ppn)
    {
      assert OwnFrame(s, r, v);
      FrameKept(s, data, s', data', r, a, a + 1, v);
    }
  }

  // Pages 0 to n of the tree at r' are copies of those of the tree at r in s0.
  ghost predicate Copied(s0: S, data0: Ram, r: Page, s: S, data: Ram, r': Page, n: nat) {
    forall v: nat {:trigger Lookup(s, r', v)} :: v < n ==> CopiedPage(s0, data0, r, s, data, r', v)
  }

  lemma CopiedMore(s0: S, data0: Ram, r: Page, s: S, data: Ram, s': S, data': Ram, r': Page, i: nat)
    requires Extended(s0, s, r', 0, i) && Copied(s0, data0, r, s, data, r', i) && Extended(s, s', r', i, i + 1)
    requires Kept(s.own, data, data')
    requires CopiedPage(s0, data0, r, s', data', r', i)
    ensures Copied(s0, data0, r, s', data', r', i + 1)
  {
    forall v: nat {:trigger CopiedPage(s0, data0, r, s', data', r', v)} | v < i
      ensures CopiedPage(s0, data0, r, s', data', r', v)
    {
      assert OwnFrame(s, r', v) && CopiedPage(s0, data0, r, s, data, r', v);
      FrameKept(s, data, s', data', r', i, i + 1, v);
    }
  }

  lemma SameContent(s: S, data: Ram, data': Ram, r: Page, v: nat)
    requires Inv(s, {}) && Present(Lookup(s, r, v)) && Kept(s.own, data, data')
    ensures At(data', Lookup(s, r, v).ppn) == At(data, Lookup(s, r, v).ppn)
  {
    FrameIs(s, r, v);
    assert AtRam(Lookup(s, r, v).ppn);
  }

  // The page behind a present entry is RAM in use.
  lemma FrameIs(s: S, r: Page, v: nat)
    requires Inv(s, {}) && Present(Lookup(s, r, v))
    ensures Leaf(Lookup(s, r, v)) && Lookup(s, r, v).ppn in s.own
    ensures var e := Lookup(s, r, v);
            (s.own[e.ppn] == Held && !ForUser(e)) || s.own[e.ppn] == Frame(r, v)
  {
    LeafIs(v);
    assert AtNode(LeafKey(r, v)) && AtEntry(LeafKey(r, v), v % 512);
  }

  // ------------------------------------------------------ taking a tree down

  // Tables below k are gone, and those in gone, and their pages are free.
  // Tables beside and above k, and all mappings, are as they were.
  ghost predicate Pruned(s: S, s': S, k: Key, gone: set<Key>) {
    && s'.own.Keys == s.own.Keys && SameMap(s, s')
    && (forall p {:trigger s'.own[p]} :: p in s.own ==>
          s'.own[p] == s.own[p] || (s.own[p].Table? && s.own[p].k.r == k.r && s'.own[p] == Free))
    && (forall j {:trigger s'.node[j]} :: j in s'.node ==> j in s.node && s'.node[j] == s.node[j])
    && (forall j {:trigger AtNode(j)} :: AtNode(j) && j in s.node && (j.r != k.r || j.l >= k.l) && j !in gone ==>
          j in s'.node && (j != k && s.node[j] in s.tab ==>
            s.node[j] in s'.tab && s'.tab[s.node[j]] == s.tab[s.node[j]]))
  }

  lemma PrunedTrans(s0: S, s1: S, s2: S, k: Key)
    requires Pruned(s0, s1, k, {}) && Pruned(s1, s2, k, {})
    ensures Pruned(s0, s2, k, {})
  {
  }

  // A leaf table of a tree that maps nothing holds nothing.
  lemma NoLeaf(s: S, k: Key, i: nat)
    requires Inv(s, {}) && k in s.node && i < 512 && (forall v: nat :: !Present(Lookup(s, k.r, v)))
    ensures AtNode(k) && NodeOk(s, k)
    ensures Present(s.tab[s.node[k]][i]) ==>
              k.l > 0 && Child(k, i) in s.node && s.tab[s.node[k]][i] == Pte(s.node[Child(k, i)], PTE_V)
    ensures !Present(s.tab[s.node[k]][i]) ==> s.tab[s.node[k]][i] == NoPte
  {
    assert AtNode(k) && AtEntry(k, i);
    if k.l == 0 {
      var v := k.n * 512 + i;
      assert v / 512 == k.n && v % 512 == i;
      assert !Present(Lookup(s, k.r, v));
    }
  }

  // freewalk of a child, then its entry cleared.
  lemma PrunedEntry(s: S, s': S, k: Key, i: nat)
    requires k in s.node && AtNode(k) && k.l > 0 && i < 512 && Inv(s, {}) && Inv(s', {Child(k, i)})
    requires Pruned(s, s', Child(k, i), {Child(k, i)})
    ensures k in s'.node && s'.node[k] == s.node[k] && AtNode(k) && NodeOk(s', k)
    ensures Inv(DropEntry(s', k, i), {}) && Pruned(s, DropEntry(s', k, i), k, {})
    ensures DropEntry(s', k, i).tab[s.node[k]] == s.tab[s.node[k]][i := NoPte]
  {
    assert AtNode(k);
    DropEntryKeeps(s', k, i);
    DropEntryNodes(s', k, i);
    forall j {:trigger AtNode(j)} | AtNode(j) && j in s.node && j != k ensures s.node[j] != s.node[k] {
      assert AtNode(j);
    }
  }

  // Every page of the tree at r has become free, and only those.
  ghost predicate TreeGone(s: S, s': S, r: Page) {
    && s'.own.Keys == s.own.Keys
    && (forall p {:trigger s'.own[p]} :: p in s.own ==>
          s'.own[p] == if (s.own[p].Table? && s.own[p].k.r == r) || (s.own[p].Frame? && s.own[p].r == r) then Free
                       else s.own[p])
    && (forall k {:trigger k in s'.node} :: k in s'.node ==> k.r != r)
    && (forall r': Page, v: nat {:trigger Lookup(s', r', v)} ::
         Lookup(s', r', v) == if r' == r then NoPte else Lookup(s, r', v))
  }

  lemma TreeIsGone(s0: S, s1: S, s2: S, r: Page, n: nat)
    requires Inv(s0, {}) && Unmapped(s0, s1, r, 0, n, Free) && Inv(s1, {}) && Pruned(s1, s2, Root(r), {Root(r)})
    requires Inv(s2, {Root(r)})
    requires forall v: nat {:trigger Lookup(s0, r, v)} :: v >= n ==> !Present(Lookup(s0, r, v))
    ensures Inv(s2, {}) && TreeGone(s0, s2, r)
  {
    forall k {:trigger k in s2.node} | k in s2.node ensures k.r != r {
      RootPresent(s2, k);
    }
    forall p | p in s0.own ensures s0.own[p].Frame? && s0.own[p].r == r ==> s0.own[p].v < n { assert AtPage(p); }
    forall p | p in s2.own ensures s2.own[p].Table? ==> s2.own[p].k.r != r { assert AtPage(p); }
    forall v: nat | v >= n ensures Lookup(s0, r, v) == NoPte { AbsentPage(s0, r, v); }
    forall k: Key, i: int {:trigger AtEntry(k, i)} | AtEntry(k, i) && k in s2.node && 0 <= i < 512
      ensures AtNode(k) && EntryOk(s2, k, i)
    {
      assert AtNode(k);
    }
  }

  // ----------------------------------------------------- what the user reads

  ghost function UserPage(s: S, r: Page, v: nat): Option<Page> {
    if v < MAXPAGES && Present(Lookup(s, r, v)) && ForUser(Lookup(s, r, v)) then Some(Lookup(s, r, v).ppn) else None
  }

  // The byte at user address a, if the user may read it.
  ghost function UserByte(s: S, data: Ram, r: Page, a: nat): Option<bv8> {
    var p := UserPage(s, r, a / PGSIZE);
    if p.Some? && |At(data, p.value)| == PGSIZE then Some(At(data, p.value)[a % PGSIZE]) else None
  }

  // The bytes from a on are dst.
  ghost predicate Reads(s: S, data: Ram, r: Page, a: nat, dst: seq<bv8>) {
    forall b: nat {:trigger UserByte(s, data, r, b)} :: a <= b < a + |dst| ==>
      UserByte(s, data, r, b) == Some(dst[b - a])
  }

  // What a read of len bytes at a may return.
  ghost predicate ReadResult(s: S, data: Ram, r: Page, a: nat, len: nat, ok: bool, dst: seq<bv8>) {
    && |dst| <= len && (ok <==> |dst| == len)
    && Reads(s, data, r, a, dst)
    && (!ok ==> UserByte(s, data, r, a + |dst|) == None)
  }

  lemma SamePage(b: nat, i: nat)
    requires b % PGSIZE + i < PGSIZE
    ensures (b + i) / PGSIZE == b / PGSIZE && (b + i) % PGSIZE == b % PGSIZE + i
  {
  }

  lemma ReadOne(s: S, data: Ram, r: Page, a: nat, dst: seq<bv8>, n: nat)
    requires Reads(s, data, r, a, dst) && (a + |dst|) % PGSIZE + n <= PGSIZE
    requires UserPage(s, r, (a + |dst|) / PGSIZE).Some?
    requires |At(data, UserPage(s, r, (a + |dst|) / PGSIZE).value)| == PGSIZE
    ensures var off := (a + |dst|) % PGSIZE;
            Reads(s, data, r, a, dst + At(data, UserPage(s, r, (a + |dst|) / PGSIZE).value)[off..off + n])
  {
    var c := a + |dst|;
    var more := dst + At(data, UserPage(s, r, c / PGSIZE).value)[c % PGSIZE..c % PGSIZE + n];
    forall b: nat {:trigger UserByte(s, data, r, b)} | a <= b < a + |more|
      ensures UserByte(s, data, r, b) == Some(more[b - a])
    {
      if b >= c { SamePage(c, b - c); }
    }
  }

  // A read is determined by the bytes.
  lemma SameRead(s: S, data: Ram, r: Page, s': S, data': Ram, r': Page, a: nat, len: nat,
                 ok: bool, dst: seq<bv8>, ok': bool, dst': seq<bv8>)
    requires ReadResult(s, data, r, a, len, ok, dst) && ReadResult(s', data', r', a, len, ok', dst')
    requires forall b: nat :: UserByte(s, data, r, b) == UserByte(s', data', r', b)
    ensures ok == ok' && dst == dst'
  {
    assert UserByte(s, data, r, a + |dst|) == UserByte(s', data', r', a + |dst|);
    assert UserByte(s, data, r, a + |dst'|) == UserByte(s', data', r', a + |dst'|);
    forall j | 0 <= j < |dst| ensures dst[j] == dst'[j] {
      assert UserByte(s, data, r, a + j) == Some(dst[j]) && UserByte(s', data', r', a + j) == Some(dst'[j]);
    }
  }

  // The bytes at a of the tree at r are now src, and no other byte of any user
  // has changed.
  ghost predicate Written(s: S, data: Ram, data': Ram, r: Page, a: nat, src: seq<bv8>) {
    forall r': Page, b: nat {:trigger UserByte(s, data', r', b)} ::
      UserByte(s, data', r', b) == if r' == r && a <= b < a + |src| then Some(src[b - a]) else UserByte(s, data, r', b)
  }

  // Users reach only frames of their own.
  ghost predicate Private(s: S) {
    forall r: Page, v: nat {:trigger UserPage(s, r, v)} :: UserPage(s, r, v).Some? ==> OwnFrame(s, r, v)
  }

  /** In every valid state users reach only frames of their own. */
  lemma UsersPrivate(s: S)
    requires Inv(s, {})
    ensures Private(s)
  {
    forall r: Page, v: nat {:trigger UserPage(s, r, v)} | UserPage(s, r, v).Some? ensures OwnFrame(s, r, v) {
      FrameIs(s, r, v);
    }
  }

  function Splice(page: seq<bv8>, off: nat, src: seq<bv8>): seq<bv8>
    requires off + |src| <= |page|
  {
    page[..off] + src + page[off + |src|..]
  }

  lemma WriteOne(s: S, data: Ram, r: Page, a: nat, src: seq<bv8>, p: Page)
    requires Private(s) && UserPage(s, r, a / PGSIZE) == Some(p) && |At(data, p)| == PGSIZE
    requires a % PGSIZE + |src| <= PGSIZE && p in data
    ensures Written(s, data, data[p := Splice(data[p], a % PGSIZE, src)], r, a, src)
  {
    var data' := data[p := Splice(data[p], a % PGSIZE, src)];
    forall r': Page, b: nat {:trigger UserByte(s, data', r', b)}
      ensures UserByte(s, data', r', b) ==
                if r' == r && a <= b < a + |src| then Some(src[b - a]) else UserByte(s, data, r', b)
    {
      if a <= b < a + |src| { SamePage(a, b - a); }
      assert UserPage(s, r, a / PGSIZE).Some?;
      if UserPage(s, r', b / PGSIZE) == Some(p) {
        assert r' == r && b / PGSIZE == a / PGSIZE;
        assert b - a == b % PGSIZE - a % PGSIZE;
      }
    }
  }

  lemma WrittenTrans(s: S, d0: Ram, d1: Ram, d2: Ram, r: Page, a: nat, x: seq<bv8>, y: seq<bv8>)
    requires Written(s, d0, d1, r, a, x) && Written(s, d1, d2, r, a + |x|, y)
    ensures Written(s, d0, d2, r, a, x + y)
  {
    forall r': Page, b: nat {:trigger UserByte(s, d2, r', b)}
      ensures UserByte(s, d2, r', b) ==
                if r' == r && a <= b < a + |x + y| then Some((x + y)[b - a]) else UserByte(s, d0, r', b)
    {
      assert UserByte(s, d1, r', b) == UserByte(s, d1, r', b);
    }
  }

  /** What copyout wrote is what copyin reads back. */
  lemma WriteThenRead(s: S, data: Ram, data': Ram, r: Page, a: nat, src: seq<bv8>, ok: bool, dst: seq<bv8>)
    requires Written(s, data, data', r, a, src) && ReadResult(s, data', r, a, |src|, ok, dst)
    ensures ok && dst == src
  {
    forall j | 0 <= j < |dst| ensures dst[j] == src[j] { assert UserByte(s, data', r, a + j) == Some(dst[j]); }
  }

  /**
    Fork copies memory: after a successful uvmcopy of n pages, with no user
    page above them on either side, every read through the child gives what
    the parent gave before and still gives, and no frame is shared.
   */
  lemma ForkCopies(s0: S, data0: Ram, s: S, data: Ram, r: Page, c: Page, n: nat)
    requires Inv(s0, {}) && Inv(s, {}) && r != c && Kept(s0.own, data0, data)
    requires Extended(s0, s, c, 0, n) && Copied(s0, data0, r, s, data, c, n)
    requires forall v: nat {:trigger Lookup(s0, r, v)} :: v < n ==> Present(Lookup(s0, r, v))
    requires forall v: nat {:trigger UserPage(s0, r, v)} :: v >= n ==>
               UserPage(s0, r, v) == None && UserPage(s0, c, v) == None
    ensures forall a: nat {:trigger UserByte(s, data, c, a)} ::
              UserByte(s, data, c, a) == UserByte(s, data, r, a) == UserByte(s0, data0, r, a)
    ensures forall v: nat, w: nat :: v < n && w < n ==> Lookup(s, r, v).ppn != Lookup(s, c, w).ppn
    ensures forall v: nat {:trigger Lookup(s, c, v)} :: v < n ==>
              (Lookup(s, c, v).flags == Lookup(s0, r, v).flags <==> Lookup(s0, r, v).flags.high == 0)
  {
    forall a: nat {:trigger UserByte(s, data, c, a)}
      ensures UserByte(s, data, c, a) == UserByte(s0, data0, r, a)
      ensures UserByte(s, data, r, a) == UserByte(s0, data0, r, a)
    {
      var v := a / PGSIZE;
      assert Lookup(s, r, v) == Lookup(s0, r, v);
      if v < n {
        SameContent(s0, data0, data, r, v);
        assert OwnFrame(s, c, v) && CopiedPage(s0, data0, r, s, data, c, v);
      } else {
        assert UserPage(s0, r, v) == None && Lookup(s, c, v) == Lookup(s0, c, v);
      }
    }
    forall v: nat, w: nat | v < n && w < n ensures Lookup(s, r, v).ppn != Lookup(s, c, w).ppn {
      assert Lookup(s, r, v) == Lookup(s0, r, v) && OwnFrame(s, c, w);
      FrameIs(s, r, v);
    }
  }

  /** So copyin of any range gives the same result through child and parent. */
  lemma ForkReads(s0: S, data0: Ram, s: S, data: Ram, r: Page, c: Page, n: nat,
                  a: nat, len: nat, ok: bool, dst: seq<bv8>, ok': bool, dst': seq<bv8>)
    requires Inv(s0, {}) && Inv(s, {}) && r != c && Kept(s0.own, data0, data)
    requires Extended(s0, s, c, 0, n) && Copied(s0, data0, r, s, data, c, n)
    requires forall v: nat {:trigger Lookup(s0, r, v)} :: v < n ==> Present(Lookup(s0, r, v))
    requires forall v: nat {:trigger UserPage(s0, r, v)} :: v >= n ==>
               UserPage(s0, r, v) == None && UserPage(s0, c, v) == None
    requires ReadResult(s, data, c, a, len, ok, dst) && ReadResult(s0, data0, r, a, len, ok', dst')
    ensures ok == ok' && dst == dst'
  {
    ForkCopies(s0, data0, s, data, r, c, n);
    SameRead(s, data, c, s0, data0, r, a, len, ok, dst, ok', dst');
  }

  // Who owns a page that is in no table.
  lemma OwnKeeps(s: S, p: Page, o: Owner)
    requires Inv(s, {}) && p in s.own && (s.own[p] == Free || s.own[p] == Taken)
    requires o == Free || o == Taken || o == Held
    ensures Inv(s.(own := s.own[p := o]), {}) && SameMap(s, s.(own := s.own[p := o]))
  {
  }

  lemma NewTableGrew(s0: S, s: S, k: Key, i: nat, p: Page)
    requires Inv(s0, {}) && k in s0.node && k.l > 0 && i < 512 && Child(k, i) !in s0.node && p in s0.own
    requires s0.own[p] == Free
    requires s == s0.(own := s0.own[p := Taken])
    ensures AtNode(k) && Nodes(s) && Inv(AddTable(s, k, i, p), {}) && Grew(s0, AddTable(s, k, i, p), k.r)
  {
    OwnKeeps(s0, p, Taken);
    AddTableKeeps(s, k, i, p);
  }

  class Vm {
    const kmem: Kmem
    var tab: map<Page, seq<Pte>>
    ghost var own: map<Page, Owner>
    ghost var node: map<Key, Page>

    ghost function Now(): S reads this { S(tab, own, node) }

    // The free list holds exactly the pages nobody owns.
    ghost predicate Tied() reads this, kmem {
      && kmem.Valid()
      && (forall p: Page {:trigger AtRam(p)} :: AtRam(p) ==>
            (p in own <==> InRam(p)) && (p in own ==> (own[p] == Free <==> p in kmem.free)))
    }

    ghost predicate Valid() reads this, kmem { Tied() && Inv(Now(), {}) }

    constructor (k: Kmem)
      requires k.Valid() && forall p :: p in k.free <==> InRam(p)
      ensures Valid() && kmem == k && node == map[]
    {
      kmem, tab, node := k, map[], map[];
      own := map p: nat | FIRST <= p < LAST && InRam(p) :: Free;
    }

    // kalloc
    method Take() returns (p: Option<Page>)
      requires Valid()
      modifies this, kmem
      ensures Valid() && node == old(node) && tab == old(tab) && SameMap(old(Now()), Now())
      ensures p.None? ==> own == old(own) && kmem.data == old(kmem.data) && Exhausted()
      ensures p.Some? ==> p.value in old(own) && old(own)[p.value] == Free && own == old(own)[p.value := Taken]
                          && kmem.data == old(kmem.data)[p.value := Filled(5)]
      ensures |Frees(own)| == |Frees(old(own))| - if p.Some? then 1 else 0
    {
      p := kmem.Kalloc();
      if p.Some? {
        assert AtRam(p.value);
        OwnKeeps(Now(), p.value, Taken);
        FreesUpdate(own, p.value, Taken);
        own := own[p.value := Taken];
      }
    }

    // kfree of a page that is in no table
    method Give(p: Page)
      requires Valid() && p in own && own[p] == Taken
      modifies this, kmem
      ensures Valid() && node == old(node) && tab == old(tab) && SameMap(old(Now()), Now())
      ensures own == old(own)[p := Free] && kmem.data == old(kmem.data)[p := Filled(1)]
    {
      assert AtRam(p);
      kmem.Kfree(p);
      OwnKeeps(Now(), p, Free);
      own := own[p := Free];
    }

    ghost predicate Keeps(own0: map<Page, Owner>, data0: Ram) reads kmem { Kept(own0, data0, kmem.data) }

    ghost predicate Exhausted()
      reads this
    {
      forall q: Page {:trigger AtRam(q)} :: AtRam(q) && q in own ==> own[q] != Free
    }

    // A new table under entry i of table k.
    method NewTable(page: Page, ghost k: Key, i: nat) returns (next: Option<Page>)
      requires Valid() && k in node && node[k] == page && k.l > 0 && i < 512 && Child(k, i) !in node
      modifies this, kmem
      ensures Valid() && Grew(old(Now()), Now(), k.r) && Keeps(old(own), old(kmem.data))
      ensures next.Some? ==> Child(k, i) in node && node[Child(k, i)] == next.value
      ensures next.None? ==> Exhausted() && Now() == old(Now())
      ensures next.Some? ==> node == old(node)[Child(k, i) := next.value] && |Frees(own)| == |Frees(old(own))| - 1
    {
      next := Take();
      if next.Some? {
        ghost var s := Now();
        FreesUpdate(own, next.value, Table(Child(k, i)));
        NewTableGrew(old(Now()), s, k, i, next.value);
        tab := tab[next.value := seq(512, _ => NoPte)];
        tab := tab[page := tab[page][i := Pte(next.value, PTE_V)]];
        own := own[next.value := Table(Child(k, i))];
        node := node[Child(k, i) := next.value];
        assert Now() == AddTable(s, k, i, next.value);
      }
    }

    // One level of walk.
    method Descend(page: Page, r: Page, level: nat, v: nat, alloc: bool) returns (next: Option<Page>)
      requires Valid() && 0 < level <= 3 && OnPath(r, level, v) in node && node[OnPath(r, level, v)] == page
      requires v < MAXPAGES
      modifies this, kmem
      ensures Valid() && Grew(old(Now()), Now(), r) && Keeps(old(own), old(kmem.data))
      ensures next.Some? ==> OnPath(r, level - 1, v) in node && node[OnPath(r, level - 1, v)] == next.value
      ensures next.None? ==> LeafKey(r, v) !in node && (alloc ==> Exhausted())
      ensures !alloc ==> Now() == old(Now()) && kmem.data == old(kmem.data)
      ensures Slack(Now(), r) == Slack(old(Now()), r)
    {
      LowPath(r, level - 1, v);
      ghost var k := OnPath(r, level, v);
      var i := Px(level, v);
      PathStep(r, level, v);
      assert AtNode(k) && AtEntry(k, i);
      ChildIs(k, i);
      assert AtNode(Child(k, i));
      if Present(tab[page][i]) {
        next := Some(tab[page][i].ppn);
      } else if alloc {
        next := NewTable(page, k, i);
      } else {
        next := None;
      }
      if next.None? { NoLeafTable(Now(), r, level - 1, v); }
    }

    /**
      walk: the leaf table of virtual page v. Without alloc nothing changes;
      with it the tree may gain tables, even when memory runs out half way,
      but no mapping changes. It then fails exactly when the tables it has to
      make are more than the free pages.
     */
    method Walk(r: Page, v: nat, alloc: bool) returns (t: Option<Page>)
      requires Valid() && Root(r) in node && v < MAXPAGES
      modifies this, kmem
      ensures Valid() && Grew(old(Now()), Now(), r) && Keeps(old(own), old(kmem.data))
      ensures t.Some? ==> LeafKey(r, v) in node && node[LeafKey(r, v)] == t.value
      ensures t.None? ==> LeafKey(r, v) !in node && (alloc ==> Exhausted())
      ensures !alloc ==> Now() == old(Now()) && kmem.data == old(kmem.data)
      ensures Slack(Now(), r) == Slack(old(Now()), r) && (alloc ==> (t.Some? <==> Slack(old(Now()), r) >= 0))
    {
      LowPath(r, 0, v);
      var page := r;
      assert AtNode(Root(r));
      var level := 3;
      while level > 0
        invariant 0 <= level <= 3 && Valid() && Grew(old(Now()), Now(), r) && Keeps(old(own), old(kmem.data))
        invariant OnPath(r, level, v) in node && node[OnPath(r, level, v)] == page
        invariant !alloc ==> Now() == old(Now()) && kmem.data == old(kmem.data)
        invariant Slack(Now(), r) == Slack(old(Now()), r)
      {
        t := Descend(page, r, level, v, alloc);
        if t.None? {
          if alloc { NoneFree(own); }
          return;
        }
        page := t.value;
        level := level - 1;
      }
      t := Some(page);
      NoneMissing(Now(), r);
    }

    // One page of mappages. On failure the tree may have gained tables.
    method MapOne(r: Page, v: nat, pa: Page, perm: Flags) returns (ok: bool)
      requires Valid() && Root(r) in node && v < MAXPAGES && pa in own && (own[pa] == Taken || own[pa] == Held)
      requires !Present(Lookup(Now(), r, v)) && Leaf(Pte(pa, On(perm))) && (own[pa] == Held ==> !ForUser(Pte(pa, perm)))
      modifies this, kmem
      ensures Valid() && Keeps(old(own), old(kmem.data))
      ensures ok ==> MappedOne(old(Now()), Now(), r, v, Pte(pa, On(perm)))
      ensures !ok ==> Grew(old(Now()), Now(), r) && Exhausted()
      ensures Slack(Now(), r) == Slack(old(Now()), r) && (ok <==> Slack(old(Now()), r) >= 0)
    {
      var t := Walk(r, v, true);
      ok := t.Some?;
      if ok {
        ghost var s := Now();
        var e := Pte(pa, On(perm));
        ghost var o := if own[pa] == Taken then Frame(r, v) else Held;
        MapOneKeeps(old(Now()), s, r, v, e, o);
        FreesUpdate(own, pa, o);
        tab := tab[t.value := tab[t.value][v % 512 := e]];
        own := own[pa := o];
        assert Now() == SetLeaf(s, r, v, e, pa, o);
      }
    }

    /**
      mappages: n pages from v on are mapped to the n physical pages from pa
      on. When walk runs out of memory the first k stay mapped; that happens
      exactly when the missing tables are more than the free pages.
     */
    method Mappages(r: Page, v: nat, n: nat, pa: Page, perm: Flags) returns (ok: bool, ghost k: nat)
      requires Valid() && Root(r) in node && n > 0 && v + n <= MAXPAGES && Leaf(Pte(pa, On(perm)))
      requires forall i: nat {:trigger Mappable(Now(), r, v, pa, perm, i)} :: i < n ==>
                 Mappable(Now(), r, v, pa, perm, i)
      modifies this, kmem
      ensures Valid() && Keeps(old(own), old(kmem.data))
      ensures k <= n && MappedRun(old(Now()), Now(), r, v, k, pa, perm)
      ensures ok ==> k == n
      ensures !ok ==> k < n && Exhausted()
      ensures Slack(Now(), r) == Slack(old(Now()), r) && (ok <==> Slack(old(Now()), r) >= 0)
    {
      MappableInUse(Now(), r, v, pa, perm, n);
      ok := true;
      var i := 0;
      while i < n && ok
        invariant i <= n && Valid() && Keeps(old(own), old(kmem.data))
        invariant MappedRun(old(Now()), Now(), r, v, i, pa, perm) && (ok || (i < n && Exhausted()))
        invariant Slack(Now(), r) == Slack(old(Now()), r) && (i > 0 || !ok ==> (ok <==> Slack(Now(), r) >= 0))
        decreases n - i, ok
      {
        ok := MapNext(r, v, i, pa, perm, old(Now()), old(kmem.data));
        if ok { i := i + 1; }
      }
      k := i;
    }

    // One turn of its loop.
    method MapNext(r: Page, v: nat, i: nat, pa: Page, perm: Flags, ghost s0: S, ghost data0: Ram)
      returns (ok: bool)
      requires Valid() && Root(r) in node && v + i < MAXPAGES && Leaf(Pte(pa, On(perm))) && Keeps(s0.own, data0)
      requires MappedRun(s0, Now(), r, v, i, pa, perm) && Mappable(s0, r, v, pa, perm, i)
      requires InUse(s0, pa, i) && InUse(s0, pa, i + 1)
      modifies this, kmem
      ensures Valid() && Keeps(s0.own, data0) && node.Keys >= old(node.Keys)
      ensures MappedRun(s0, Now(), r, v, if ok then i + 1 else i, pa, perm)
      ensures !ok ==> Exhausted()
      ensures Slack(Now(), r) == Slack(old(Now()), r) && (ok <==> Slack(old(Now()), r) >= 0)
    {
      ghost var s := Now();
      StillMappable(s0, s, r, v, i, pa, perm);
      ok := MapOne(r, v + i, pa + i, perm);
      if ok {
        RunThenOne(s0, s, Now(), r, v, i, pa, perm);
      } else {
        RunThenGrew(s0, s, Now(), r, v, i, pa, perm);
      }
    }

    // kalloc, fill, mappages, and kfree if that failed: exactly when no free
    // page is left once the missing tables are made.
    method AddPage(r: Page, v: nat, content: seq<bv8>, perm: Flags) returns (ok: bool)
      requires Valid() && Root(r) in node && v < MAXPAGES && |content| == PGSIZE
      requires !Present(Lookup(Now(), r, v)) && On(perm) != PTE_V
      modifies this, kmem
      ensures Valid() && Keeps(old(own), old(kmem.data))
      ensures ok ==> Extended(old(Now()), Now(), r, v, v + 1) && Lookup(Now(), r, v).flags == On(perm)
                     && At(kmem.data, Lookup(Now(), r, v).ppn) == content
      ensures !ok ==> Grew(old(Now()), Now(), r)
      ensures ok <==> Slack(old(Now()), r) >= 1
      ensures Slack(Now(), r) == Slack(old(Now()), r) - if ok then 1 else 0
    {
      var mem := Take();
      if mem.None? {
        NoneFree(own);
        return false;
      }
      assert AtRam(mem.value);
      kmem.data := kmem.data[mem.value := content];
      ghost var s := Now();
      assert Mappable(s, r, v, mem.value, perm, 0);
      ghost var k;
      ok, k := Mappages(r, v, 1, mem.value, perm);
      RunOfOne(s, Now(), r, v, k, mem.value, perm);
      if ok {
        AddPageExtended(old(Now()), s, Now(), r, v, Pte(mem.value, On(perm)));
      } else {
        ghost var s2 := Now();
        FreesUpdate(own, mem.value, Free);
        Give(mem.value);
        AddPageUndone(old(Now()), s, s2, Now(), r, mem.value);
      }
    }

    // The body of uvmunmap's loop; refusal stands for its panics.
    method UnmapOne(r: Page, v: nat, doFree: bool) returns (ok: bool)
      requires Valid() && Root(r) in node && v < MAXPAGES && Freeable(Now(), r, v, doFree)
      modifies this, kmem
      ensures Valid() && Keeps(own, old(kmem.data)) && (ok <==> Present(Lookup(old(Now()), r, v)))
      ensures ok ==> Unmapped(old(Now()), Now(), r, v, v + 1, if doFree then Free else Taken)
      ensures !ok ==> Now() == old(Now())
    {
      var t := Walk(r, v, false);
      assert AtNode(LeafKey(r, v));
      if t.None? || !Present(tab[t.value][v % 512]) {
        return false;
      }
      ghost var s := Now();
      var pa := tab[t.value][v % 512].ppn;
      ghost var o := if pa in own && own[pa] == Held then Held else if doFree then Free else Taken;
      UnmapOneKeeps(s, r, v, doFree, o);
      if doFree {
        assert AtRam(pa);
        kmem.Kfree(pa);
      }
      tab := tab[t.value := tab[t.value][v % 512 := NoPte]];
      own := own[pa := o];
      assert Now() == SetLeaf(s, r, v, NoPte, pa, o);
      ok := true;
    }

    /**
      uvmunmap returns exactly when every page of the range is mapped; then
      exactly these pages lose their mappings, and with doFree exactly their
      frames become free. Otherwise it panics at the first page, stop, that is
      not, with the pages before it gone.
     */
    method Uvmunmap(r: Page, start: nat, n: nat, doFree: bool) returns (ok: bool, ghost stop: nat)
      requires Valid() && Root(r) in node && start + n <= MAXPAGES
      requires forall v: nat {:trigger Freeable(Now(), r, v, doFree)} :: start <= v < start + n ==>
                 Freeable(Now(), r, v, doFree)
      modifies this, kmem
      ensures Valid() && Keeps(own, old(kmem.data))
      ensures ok <==> forall v: nat {:trigger Lookup(old(Now()), r, v)} ::
          start <= v < start + n ==> Present(Lookup(old(Now()), r, v))
      ensures start <= stop <= start + n && Unmapped(old(Now()), Now(), r, start, stop, if doFree then Free else Taken)
      ensures ok ==> stop == start + n
      ensures !ok ==> stop < start + n && !Present(Lookup(old(Now()), r, stop))
    {
      var a := start;
      while a < start + n
        invariant start <= a <= start + n && Valid() && Keeps(own, old(kmem.data))
        invariant Unmapped(old(Now()), Now(), r, start, a, if doFree then Free else Taken)
        invariant forall v: nat {:trigger Lookup(old(Now()), r, v)} :: start <= v < a ==>
                    Present(Lookup(old(Now()), r, v))
      {
        ghost var s := Now();
        StillFreeable(old(Now()), s, r, start, a, doFree);
        ok := UnmapOne(r, a, doFree);
        if !ok {
          return false, a;
        }
        UnmappedTrans(old(Now()), s, Now(), r, start, a, a + 1, if doFree then Free else Taken);
        a := a + 1;
      }
      ok, stop := true, a;
    }

    /** uvmcreate: a new tree that maps nothing. */
    method Uvmcreate() returns (r: Option<Page>)
      requires Valid()
      modifies this, kmem
      ensures Valid() && Keeps(old(own), old(kmem.data)) && SameMap(old(Now()), Now())
      ensures r.None? ==> Now() == old(Now()) && Exhausted()
      ensures r.Some? ==> Root(r.value) !in old(node) && Root(r.value) in node
      ensures r.Some? ==> forall v: nat :: Lookup(Now(), r.value, v) == NoPte
      ensures r.Some? ==> node == old(node)[Root(r.value) := r.value]
                          && r.value in old(own) && old(own)[r.value] == Free
                          && own == old(own)[r.value := Table(Root(r.value))]
      ensures r.Some? <==> |Frees(old(own))| >= 1
      ensures r.Some? ==> Slack(Now(), r.value) == |Frees(old(own))| - 4
    {
      r := Take();
      if r.None? {
        NoneFree(own);
      } else {
        ghost var s := Now();
        AddRootKeeps(s, r.value);
        AddRootNodes(s, r.value);
        FreesUpdate(own, r.value, Table(Root(r.value)));
        tab := tab[r.value := seq(512, _ => NoPte)];
        own := own[r.value := Table(Root(r.value))];
        node := node[Root(r.value) := r.value];
        assert Now() == AddRoot(s, r.value);
      }
    }

    /**
      uvmdealloc: exactly the pages above newsz go, with their frames. None is
      the panic of uvmunmap, exactly when one of those pages is not mapped.
     */
    method Uvmdealloc(r: Page, oldsz: nat, newsz: nat) returns (sz: Option<nat>)
      requires Valid() && Root(r) in node && PageUp(oldsz) <= MAXPAGES
      requires forall v: nat {:trigger Freeable(Now(), r, v, true)} :: PageUp(newsz) <= v < PageUp(oldsz) ==>
                 Freeable(Now(), r, v, true)
      modifies this, kmem
      ensures Valid() && Keeps(own, old(kmem.data))
      ensures sz.Some? <==> forall v: nat {:trigger Lookup(old(Now()), r, v)} ::
                              PageUp(newsz) <= v < PageUp(oldsz) ==> Present(Lookup(old(Now()), r, v))
      ensures sz.Some? ==> sz.value == if newsz < oldsz then newsz else oldsz
      ensures sz.Some? ==> Unmapped(old(Now()), Now(), r, PageUp(sz.value), PageUp(oldsz), Free)
    {
      if newsz >= oldsz {
        return Some(oldsz);
      }
      if PageUp(newsz) < PageUp(oldsz) {
        var ok, _ := Uvmunmap(r, PageUp(newsz), PageUp(oldsz) - PageUp(newsz), true);
        if !ok {
          return None;
        }
      }
      sz := Some(newsz);
    }

    // The body of uvmalloc's loop.
    method AllocNext(ghost s0: S, ghost data0: Ram, r: Page, ghost lo: nat, a: nat) returns (ok: bool)
      requires Valid() && Root(r) in node && lo <= a < MAXPAGES && Keeps(s0.own, data0) && !Present(Lookup(s0, r, a))
      requires Extended(s0, Now(), r, lo, a) && Zeroed(Now(), kmem.data, r, lo, a)
      modifies this, kmem
      ensures Valid() && Keeps(s0.own, data0) && Extended(s0, Now(), r, lo, if ok then a + 1 else a)
      ensures ok ==> Zeroed(Now(), kmem.data, r, lo, a + 1)
      ensures (ok <==> Slack(old(Now()), r) >= 1) && (ok ==> Slack(Now(), r) == Slack(old(Now()), r) - 1)
    {
      ghost var s, data := Now(), kmem.data;
      ok := AddPage(r, a, Filled(0), USER);
      ExtendedTrans(s0, s, Now(), r, lo, a, if ok then a + 1 else a);
      if ok { ZeroedMore(s0, s, data, Now(), kmem.data, r, lo, a); }
    }

    // uvmalloc's way out: the pages from lo to a go again.
    method AllocFailed(ghost s0: S, ghost data0: Ram, r: Page, a: nat, lo: nat)
      requires Valid() && Root(r) in node && lo <= a <= MAXPAGES && Inv(s0, {}) && Keeps(s0.own, data0)
      requires Extended(s0, Now(), r, lo, a)
      requires forall v: nat {:trigger Lookup(s0, r, v)} :: lo <= v < a ==> !Present(Lookup(s0, r, v))
      modifies this, kmem
      ensures Valid() && Keeps(s0.own, data0) && Grew(s0, Now(), r)
    {
      ghost var s := Now();
      forall v: nat | lo <= v < a
        ensures Freeable(s, r, v, true) && Present(Lookup(s, r, v))
      {
        assert OwnFrame(s, r, v);
      }
      var _ := Uvmdealloc(r, a * PGSIZE, lo * PGSIZE);
      UndoneGrew(s0, s, Now(), r, lo, a);
    }

    /**
      uvmalloc: zeroed pages up to newsz, or every mapping as it was, which
      happens exactly when frames and missing tables are more than the free
      pages.
     */
    method Uvmalloc(r: Page, oldsz: nat, newsz: nat) returns (sz: nat, ghost ok: bool)
      requires Valid() && Root(r) in node && PageUp(newsz) <= MAXPAGES
      requires forall v: nat {:trigger Lookup(Now(), r, v)} :: PageUp(oldsz) <= v < PageUp(newsz) ==>
                 !Present(Lookup(Now(), r, v))
      modifies this, kmem
      ensures Valid() && Keeps(old(own), old(kmem.data))
      ensures newsz < oldsz ==> sz == oldsz && Now() == old(Now())
      ensures newsz >= oldsz ==> sz == if ok then newsz else 0
      ensures newsz >= oldsz && ok ==>
                && Extended(old(Now()), Now(), r, PageUp(oldsz), PageUp(newsz))
                && Zeroed(Now(), kmem.data, r, PageUp(oldsz), PageUp(newsz))
      ensures newsz >= oldsz && !ok ==> Grew(old(Now()), Now(), r)
      ensures newsz >= oldsz ==>
                (ok <==> PageUp(newsz) == PageUp(oldsz) || Slack(old(Now()), r) >= PageUp(newsz) - PageUp(oldsz))
    {
      if newsz < oldsz {
        return oldsz, true;
      }
      var lo := PageUp(oldsz);
      var a := lo;
      while a * PGSIZE < newsz
        invariant lo <= a && (a <= PageUp(newsz) || a == lo) && Valid() && Keeps(old(own), old(kmem.data))
        invariant Extended(old(Now()), Now(), r, lo, a)
        invariant Zeroed(Now(), kmem.data, r, lo, a)
        invariant a > lo ==> Slack(Now(), r) == Slack(old(Now()), r) - (a - lo) >= 0
        invariant a == lo ==> Now() == old(Now())
        decreases newsz - a * PGSIZE
      {
        var more := AllocNext(old(Now()), old(kmem.data), r, lo, a);
        if !more {
          AllocFailed(old(Now()), old(kmem.data), r, a, lo);
          return 0, false;
        }
        a := a + 1;
      }
      sz, ok := newsz, true;
    }

    // Page i of the tree at r, copied to the tree at c.
    method CopyPage(r: Page, c: Page, i: nat) returns (ok: bool)
      requires Valid() && Root(r) in node && Root(c) in node && i < MAXPAGES
      requires Present(Lookup(Now(), r, i)) && Low(Lookup(Now(), r, i).flags) != PTE_V && !Present(Lookup(Now(), c, i))
      modifies this, kmem
      ensures Valid() && Keeps(old(own), old(kmem.data))
      ensures ok ==> Extended(old(Now()), Now(), c, i, i + 1)
      ensures ok ==> CopiedPage(old(Now()), old(kmem.data), r, Now(), kmem.data, c, i)
      ensures !ok ==> Grew(old(Now()), Now(), c)
      ensures (ok <==> Slack(old(Now()), c) >= 1) && (ok ==> Slack(Now(), c) == Slack(old(Now()), c) - 1)
    {
      var t := Walk(r, i, false);
      assert AtNode(LeafKey(r, i));
      var e := tab[t.value][i % 512];
      FrameIs(Now(), r, i);
      assert AtRam(e.ppn);
      ok := AddPage(c, i, kmem.data[e.ppn], Low(e.flags));
    }

    // The body of uvmcopy's loop.
    method CopyNext(ghost s0: S, ghost data0: Ram, r: Page, c: Page, i: nat) returns (ok: bool)
      requires Valid() && Root(r) in node && Root(c) in node && r != c && i < MAXPAGES && Inv(s0, {})
      requires Keeps(s0.own, data0)
      requires Present(Lookup(s0, r, i)) && Low(Lookup(s0, r, i).flags) != PTE_V && !Present(Lookup(s0, c, i))
      requires Extended(s0, Now(), c, 0, i) && Copied(s0, data0, r, Now(), kmem.data, c, i)
      modifies this, kmem
      ensures Valid() && Keeps(s0.own, data0) && Extended(s0, Now(), c, 0, if ok then i + 1 else i)
      ensures ok ==> Copied(s0, data0, r, Now(), kmem.data, c, i + 1)
      ensures (ok <==> Slack(old(Now()), c) >= 1) && (ok ==> Slack(Now(), c) == Slack(old(Now()), c) - 1)
    {
      ghost var s, data := Now(), kmem.data;
      assert Lookup(s, r, i) == Lookup(s0, r, i) && Lookup(s, c, i) == Lookup(s0, c, i);
      SameContent(s0, data0, data, r, i);
      ok := CopyPage(r, c, i);
      ExtendedTrans(s0, s, Now(), c, 0, i, if ok then i + 1 else i);
      if ok { CopiedMore(s0, data0, r, s, data, Now(), kmem.data, c, i); }
    }

    /**
      uvmcopy: the tree at c gets its own copy of every page below sz of the
      tree at r, or every mapping is as it was, which happens exactly when
      frames and missing tables are more than the free pages. Pages must be
      present, and absent from c.
     */
    method Uvmcopy(r: Page, c: Page, sz: nat) returns (ok: bool)
      requires Valid() && Root(r) in node && Root(c) in node && r != c && PageUp(sz) <= MAXPAGES
      requires forall v: nat {:trigger Lookup(Now(), r, v)} :: v < PageUp(sz) ==>
                 Present(Lookup(Now(), r, v)) && Low(Lookup(Now(), r, v).flags) != PTE_V
      requires forall v: nat {:trigger Lookup(Now(), c, v)} :: v < PageUp(sz) ==> !Present(Lookup(Now(), c, v))
      modifies this, kmem
      ensures Valid() && Keeps(old(own), old(kmem.data))
      ensures ok ==> Extended(old(Now()), Now(), c, 0, PageUp(sz))
      ensures ok ==> Copied(old(Now()), old(kmem.data), r, Now(), kmem.data, c, PageUp(sz))
      ensures !ok ==> Grew(old(Now()), Now(), c)
      ensures ok <==> sz == 0 || Slack(old(Now()), c) >= PageUp(sz)
    {
      var i := 0;
      while i * PGSIZE < sz
        invariant i <= PageUp(sz) && Valid() && Keeps(old(own), old(kmem.data))
        invariant Extended(old(Now()), Now(), c, 0, i) && Copied(old(Now()), old(kmem.data), r, Now(), kmem.data, c, i)
        invariant i == 0 ==> Now() == old(Now())
        invariant i > 0 ==> Slack(Now(), c) == Slack(old(Now()), c) - i >= 0
        decreases sz - i * PGSIZE
      {
        ok := CopyNext(old(Now()), old(kmem.data), r, c, i);
        if !ok {
          CopyFailed(old(Now()), old(kmem.data), c, i);
          return false;
        }
        i := i + 1;
      }
      ok := true;
    }

    // uvmcopy's way out.
    method CopyFailed(ghost s0: S, ghost data0: Ram, c: Page, i: nat)
      requires Valid() && Root(c) in node && i <= MAXPAGES && Inv(s0, {}) && Keeps(s0.own, data0)
      requires Extended(s0, Now(), c, 0, i)
      requires forall v: nat {:trigger Lookup(s0, c, v)} :: v < i ==> !Present(Lookup(s0, c, v))
      modifies this, kmem
      ensures Valid() && Keeps(s0.own, data0) && Grew(s0, Now(), c)
    {
      ghost var s := Now();
      forall v: nat | v < i ensures Freeable(s, c, v, true) && Present(Lookup(s, c, v)) { assert OwnFrame(s, c, v); }
      var _, _ := Uvmunmap(c, 0, i, true);
      UndoneGrew(s0, s, Now(), c, 0, i);
    }

    /** uvmclear: only page v changes, and only in that the user may not use it. */
    method Uvmclear(r: Page, v: nat)
      requires Valid() && Root(r) in node && v < MAXPAGES && LeafKey(r, v) in node
      requires Present(Lookup(Now(), r, v)) ==> NoUser(Lookup(Now(), r, v).flags) != PTE_V
      modifies this, kmem
      ensures Valid() && own == old(own) && node == old(node) && kmem.data == old(kmem.data)
      ensures forall r': Page, w: nat {:trigger Lookup(Now(), r', w)} :: Lookup(Now(), r', w) ==
                if r' == r && w == v then Pte(Lookup(old(Now()), r, v).ppn, NoUser(Lookup(old(Now()), r, v).flags))
                else Lookup(old(Now()), r', w)
    {
      var w := Walk(r, v, false);
      var t := w.value;
      ghost var s := Now();
      assert AtNode(LeafKey(r, v));
      var e := tab[t][v % 512];
      var e' := Pte(e.ppn, NoUser(e.flags));
      if Present(e) {
        FrameIs(s, r, v);
        SetLeafKeeps(s, r, v, e', e.ppn, own[e.ppn]);
        tab := tab[t := tab[t][v % 512 := e']];
        assert Now() == SetLeaf(s, r, v, e', e.ppn, own[e.ppn]);
      } else {
        AbsentPage(s, r, v);
        tab := tab[t := tab[t][v % 512 := e']];
        assert tab[t] == s.tab[t] && tab == s.tab;
      }
    }

    // The body of freewalk's loop.
    method FreeEntry(p: Page, ghost k: Key, i: nat)
      requires Valid() && k in node && node[k] == p && i < 512 && (forall v: nat :: !Present(Lookup(Now(), k.r, v)))
      modifies this, kmem
      ensures Valid() && Keeps(own, old(kmem.data)) && Pruned(old(Now()), Now(), k, {})
      ensures AtNode(k) && k in node && node[k] == p && tab[p] == old(tab)[p][i := NoPte]
      decreases k.l, 0
    {
      NoLeaf(Now(), k, i);
      assert AtNode(k);
      var e := tab[p][i];
      if Present(e) {
        Freewalk(e.ppn, Child(k, i));
        PrunedEntry(old(Now()), Now(), k, i);
        ghost var s := Now();
        tab := tab[p := tab[p][i := NoPte]];
        assert Now() == DropEntry(s, k, i);
      } else {
        assert tab[p] == tab[p][i := NoPte];
      }
    }

    method Freewalk(p: Page, ghost k: Key)
      requires Valid() && k in node && node[k] == p && (forall v: nat :: !Present(Lookup(Now(), k.r, v)))
      modifies this, kmem
      ensures Tied() && Inv(Now(), {k}) && Keeps(own, old(kmem.data)) && Pruned(old(Now()), Now(), k, {k})
      decreases k.l, 1
    {
      var i := 0;
      while i < 512
        invariant 0 <= i <= 512 && Valid() && Keeps(own, old(kmem.data)) && Pruned(old(Now()), Now(), k, {})
        invariant AtNode(k) && k in node && node[k] == p && forall j :: 0 <= j < i ==> tab[p][j] == NoPte
      {
        ghost var s := Now();
        FreeEntry(p, k, i);
        PrunedTrans(old(Now()), s, Now(), k);
        i := i + 1;
      }
      FreeTable(p, k);
    }

    // freewalk's kfree.
    method FreeTable(p: Page, ghost k: Key)
      requires Valid() && AtNode(k) && k in node && node[k] == p && forall j :: 0 <= j < 512 ==> tab[p][j] == NoPte
      modifies this, kmem
      ensures Tied() && Inv(Now(), {k}) && Keeps(own, old(kmem.data)) && Now() == DropTable(old(Now()), k)
      ensures SameMap(old(Now()), Now())
    {
      ghost var s := Now();
      DropTableKeeps(s, k);
      assert AtRam(p);
      kmem.Kfree(p);
      own := own[p := Free];
      node := node - {k};
      assert Now() == DropTable(s, k);
    }

    /**
      uvmfree: every page of the tree at r, frames and tables, is free again,
      and no other page changes hands.
     */
    method Uvmfree(r: Page, sz: nat)
      requires Valid() && Root(r) in node && PageUp(sz) <= MAXPAGES
      requires forall v: nat {:trigger OwnFrame(Now(), r, v)} :: v < PageUp(sz) ==> OwnFrame(Now(), r, v)
      requires forall v: nat {:trigger Lookup(Now(), r, v)} :: v >= PageUp(sz) ==> !Present(Lookup(Now(), r, v))
      modifies this, kmem
      ensures Valid() && Keeps(own, old(kmem.data)) && TreeGone(old(Now()), Now(), r)
    {
      if sz > 0 {
        forall v: nat | v < PageUp(sz)
          ensures Freeable(Now(), r, v, true) && Present(Lookup(Now(), r, v))
        {
          assert OwnFrame(Now(), r, v);
        }
        var _, _ := Uvmunmap(r, 0, PageUp(sz), true);
      }
      ghost var s := Now();
      assert AtNode(Root(r));
      Freewalk(r, Root(r));
      TreeIsGone(old(Now()), s, Now(), r, PageUp(sz));
    }

    /** The free list, the tables, the frames and the kernel's pages are a partition of RAM. */
    lemma Partition()
      requires Valid()
      ensures kmem.free !! Tables() !! Frames() !! Others()
      ensures kmem.free + Tables() + Frames() + Others() == set p: nat | FIRST <= p < LAST && InRam(p)
      ensures forall r: Page, v: nat, r': Page, v': nat ::
          OwnFrame(Now(), r, v) && OwnFrame(Now(), r', v') && (r, v) != (r', v') ==>
                Lookup(Now(), r, v).ppn != Lookup(Now(), r', v').ppn
    {
      forall p: Page
        ensures (p in own <==> InRam(p)) && (p in own ==> (own[p] == Free <==> p in kmem.free)) &&
                  (p in kmem.free ==> p in own)
      {
        assert AtRam(p);
      }
    }

    ghost function Tables(): set<Page> reads this { set p | p in own && own[p].Table? }
    ghost function Frames(): set<Page> reads this { set p | p in own && own[p].Frame? }
    ghost function Others(): set<Page> reads this { set p | p in own && (own[p] == Held || own[p] == Taken) }

    // walkaddr
    method Walkaddr(r: Page, v: nat) returns (pa: Option<Page>)
      requires Valid() && Root(r) in node
      modifies this, kmem
      ensures Valid() && Now() == old(Now()) && kmem.data == old(kmem.data) && pa == UserPage(Now(), r, v)
      ensures pa.Some? ==> pa.value in kmem.data && |kmem.data[pa.value]| == PGSIZE && pa.value in own
    {
      if v >= MAXPAGES {
        return None;
      }
      var t := Walk(r, v, false);
      if t.None? {
        return None;
      }
      assert AtNode(LeafKey(r, v));
      var e := tab[t.value][v % 512];
      if !Present(e) || !ForUser(e) {
        return None;
      }
      FrameIs(Now(), r, v);
      assert AtRam(e.ppn);
      pa := Some(e.ppn);
    }

    /** copyin: the bytes at srcva up to the first one the user may not read. */
    method Copyin(r: Page, srcva: nat, len: nat) returns (ok: bool, dst: seq<bv8>)
      requires Valid() && Root(r) in node
      modifies this, kmem
      ensures Valid() && Now() == old(Now()) && kmem.data == old(kmem.data)
      ensures ReadResult(Now(), kmem.data, r, srcva, len, ok, dst)
    {
      dst := [];
      while |dst| < len
        invariant |dst| <= len && Valid() && Now() == old(Now()) && kmem.data == old(kmem.data)
        invariant Reads(Now(), kmem.data, r, srcva, dst)
      {
        var a := srcva + |dst|;
        var pa := Walkaddr(r, a / PGSIZE);
        if pa.None? {
          return false, dst;
        }
        var off := a % PGSIZE;
        var n := if PGSIZE - off > len - |dst| then len - |dst| else PGSIZE - off;
        ReadOne(Now(), kmem.data, r, srcva, dst, n);
        dst := dst + kmem.data[pa.value][off..off + n];
      }
      ok := true;
    }

    // The body of copyout's loop: the bytes of src that go to one page.
    method WriteNext(r: Page, a: nat, src: seq<bv8>) returns (n: nat)
      requires Valid() && Root(r) in node && src != []
      modifies this, kmem
      ensures Valid() && Now() == old(Now()) && n <= |src| && Written(Now(), old(kmem.data), kmem.data, r, a, src[..n])
      ensures n == 0 ==> UserByte(Now(), old(kmem.data), r, a) == None
    {
      var pa := Walkaddr(r, a / PGSIZE);
      if pa.None? {
        return 0;
      }
      var off := a % PGSIZE;
      n := if PGSIZE - off > |src| then |src| else PGSIZE - off;
      UsersPrivate(Now());
      WriteOne(Now(), kmem.data, r, a, src[..n], pa.value);
      kmem.data := kmem.data[pa.value := Splice(kmem.data[pa.value], off, src[..n])];
    }

    /** copyout: the bytes of src up to the first address the user may not use, and no other byte. */
    method Copyout(r: Page, dstva: nat, src: seq<bv8>) returns (ok: bool, ghost k: nat)
      requires Valid() && Root(r) in node
      modifies this, kmem
      ensures Valid() && Now() == old(Now()) && k <= |src| && (ok <==> k == |src|)
      ensures Written(Now(), old(kmem.data), kmem.data, r, dstva, src[..k])
      ensures !ok ==> UserByte(Now(), old(kmem.data), r, dstva + k) == None
    {
      var i := 0;
      while i < |src|
        invariant i <= |src| && Valid() && Now() == old(Now())
        invariant Written(Now(), old(kmem.data), kmem.data, r, dstva, src[..i])
      {
        ghost var data := kmem.data;
        var n := WriteNext(r, dstva + i, src[i..]);
        assert src[..i + n] == src[..i] + src[i..][..n];
        WrittenTrans(Now(), old(kmem.data), data, kmem.data, r, dstva, src[..i], src[i..][..n]);
        if n == 0 {
          assert UserByte(Now(), data, r, dstva + i) == None;
          return false, i;
        }
        i := i + n;
      }
      ok, k := true, i;
    }
  }

  // A table on the path to v has all the tables above it.
  lemma NoLeafTable(s: S, r: Page, l: nat, v: nat)
    requires Inv(s, {}) && l <= 3 && OnPath(r, l, v) !in s.node
    ensures LeafKey(r, v) !in s.node
  {
    if l > 0 {
      PathStep(r, l, v);
      ChildIs(OnPath(r, l, v), Px(l, v));
      assert AtNode(OnPath(r, l - 1, v));
      NoLeafTable(s, r, l - 1, v);
    }
  }
}
