/**
  The page tables of a new process (kernel/proc.c over kernel/vm.c): made with
  the trapframe in them, filled by fork, and taken down again when fork fails.
 */
module ForkMemory {
  import opened Params
  import opened PageTable
  import opened Kalloc
  import opened Vm

  const TRAPFRAME := MAXPAGES - 1

  // NX, P, W, MAT and D: not for the user.
  const TRAP := Flags(false, 0, 0x192, 0x4000_0000_0000_0000)

  // Since s0 the tree at c may have got pages that were free then.
  ghost predicate OnlyFor(s0: S, s: S, c: Page) {
    && s.own.Keys == s0.own.Keys
    && forall p {:trigger s.own[p]} :: p in s0.own ==>
         s.own[p] == s0.own[p] || (s0.own[p] == Free && Names(s.own[p], c))
  }

  predicate Names(o: Owner, c: Page) { (o.Table? && o.k.r == c) || (o.Frame? && o.r == c) }

  // The tree at c maps the trapframe and nothing else; the others are as in s0.
  ghost predicate TrapOnly(s0: S, s: S, c: Page, tf: Page) {
    forall r: Page, v: nat {:trigger Lookup(s, r, v)} ::
      Lookup(s, r, v) == if r != c then Lookup(s0, r, v) else if v == TRAPFRAME then Pte(tf, On(TRAP)) else NoPte
  }

  // There is no tree at c.
  lemma Nobody(s: S, c: Page)
    requires Inv(s, {}) && Root(c) !in s.node
    ensures forall p {:trigger s.own[p]} :: p in s.own ==> !Names(s.own[p], c)
    ensures forall v: nat {:trigger Lookup(s, c, v)} :: Lookup(s, c, v) == NoPte
  {
    forall k | k in s.node ensures k.r != c { RootPresent(s, k); }
    forall p | p in s.own ensures !Names(s.own[p], c) { assert AtPage(p); }
  }

  // Taking the tree down again gives every page back.
  lemma AllBack(s0: S, s: S, s': S, c: Page)
    requires Inv(s0, {}) && Root(c) !in s0.node && OnlyFor(s0, s, c) && TreeGone(s, s', c)
    requires forall r: Page, v: nat {:trigger Lookup(s, r, v)} :: r != c ==> Lookup(s, r, v) == Lookup(s0, r, v)
    ensures s'.own == s0.own && SameMap(s0, s')
  {
    Nobody(s0, c);
    forall p | p in s0.own ensures s'.own[p] == s0.own[p] { assert s.own[p] == s.own[p]; }
  }

  method MapTrapframe(vm: Vm, c: Page, tf: Page) returns (ok: bool)
    requires vm.Valid() && tf in vm.own && vm.own[tf] == Held && Root(c) in vm.node
    requires !Present(Lookup(vm.Now(), c, TRAPFRAME))
    modifies vm, vm.kmem
    ensures vm.Valid() && vm.Keeps(old(vm.own), old(vm.kmem.data))
    ensures ok ==> MappedOne(old(vm.Now()), vm.Now(), c, TRAPFRAME, Pte(tf, On(TRAP)))
    ensures !ok ==> Grew(old(vm.Now()), vm.Now(), c)
    ensures Slack(vm.Now(), c) == Slack(old(vm.Now()), c) && (ok <==> Slack(old(vm.Now()), c) >= 0)
  {
    ghost var s := vm.Now();
    assert Mappable(s, c, TRAPFRAME, tf, TRAP, 0);
    ghost var k;
    ok, k := vm.Mappages(c, TRAPFRAME, 1, tf, TRAP);
    RunOfOne(s, vm.Now(), c, TRAPFRAME, k, tf, TRAP);
  }

  /**
    proc_pagetable: a tree that maps the trapframe and nothing else, or every
    page as it was, exactly when the root and three tables are more than is free.
   */
  method ProcPagetable(vm: Vm, tf: Page) returns (c: Option<Page>)
    requires vm.Valid() && tf in vm.own && vm.own[tf] == Held
    modifies vm, vm.kmem
    ensures vm.Valid() && vm.Keeps(old(vm.own), old(vm.kmem.data))
    ensures c.None? ==> vm.own == old(vm.own) && SameMap(old(vm.Now()), vm.Now())
    ensures c.Some? ==>
              Root(c.value) !in old(vm.node) && Root(c.value) in vm.node && OnlyFor(old(vm.Now()), vm.Now(), c.value)
    ensures c.Some? ==> TrapOnly(old(vm.Now()), vm.Now(), c.value, tf) && forall k :: k in old(vm.node) ==> k in vm.node
    ensures c.Some? <==> |Frees(old(vm.own))| >= 4
    ensures c.Some? ==> Slack(vm.Now(), c.value) == |Frees(old(vm.own))| - 4
  {
    ghost var s0 := vm.Now();
    c := vm.Uvmcreate();
    if c.None? {
      return;
    }
    ghost var s1 := vm.Now();
    var ok := MapTrapframe(vm, c.value, tf);
    if ok {
      RootThenTrap(s0, s1, vm.Now(), c.value, tf);
    } else {
      RootThenGrew(s0, s1, vm.Now(), c.value);
      DropEmpty(vm, c.value, s0, old(vm.kmem.data));
      c := None;
    }
  }

  // uvmcreate, then the trapframe.
  lemma RootThenTrap(s0: S, s1: S, s2: S, c: Page, tf: Page)
    requires SameMap(s0, s1) && Root(c) !in s0.node && s1.node == s0.node[Root(c) := c]
    requires c in s0.own && s0.own[c] == Free && s1.own == s0.own[c := Table(Root(c))]
    requires tf in s0.own && s0.own[tf] == Held && (forall v: nat :: Lookup(s1, c, v) == NoPte)
    requires MappedOne(s1, s2, c, TRAPFRAME, Pte(tf, On(TRAP)))
    ensures OnlyFor(s0, s2, c) && TrapOnly(s0, s2, c, tf)
    ensures Root(c) in s2.node && forall k :: k in s0.node ==> k in s2.node
  {
    forall r: Page, v: nat {:trigger Lookup(s2, r, v)}
      ensures r != c ==> Lookup(s2, r, v) == Lookup(s0, r, v)
      ensures r == c && v != TRAPFRAME ==> Lookup(s2, r, v) == NoPte
    {
      assert Lookup(s1, r, v) == Lookup(s0, r, v);
    }
  }

  // uvmcreate, then a mappages that failed.
  lemma RootThenGrew(s0: S, s1: S, s2: S, c: Page)
    requires SameMap(s0, s1) && Root(c) !in s0.node && s1.node == s0.node[Root(c) := c]
    requires c in s0.own && s0.own[c] == Free && s1.own == s0.own[c := Table(Root(c))]
    requires Grew(s1, s2, c) && forall v: nat :: Lookup(s1, c, v) == NoPte
    ensures OnlyFor(s0, s2, c) && SameMap(s0, s2) && Root(c) in s2.node && forall v: nat :: Lookup(s2, c, v) == NoPte
  {
  }

  // uvmfree of a tree that maps nothing and did not exist in s0.
  method DropEmpty(vm: Vm, c: Page, ghost s0: S, ghost d0: Ram)
    requires vm.Valid() && Root(c) in vm.node && Inv(s0, {}) && Root(c) !in s0.node && vm.Keeps(s0.own, d0)
    requires OnlyFor(s0, vm.Now(), c) && SameMap(s0, vm.Now()) && forall v: nat :: Lookup(vm.Now(), c, v) == NoPte
    modifies vm, vm.kmem
    ensures vm.Valid() && vm.own == s0.own && SameMap(s0, vm.Now()) && vm.Keeps(s0.own, d0)
  {
    ghost var s := vm.Now();
    vm.Uvmfree(c, 0);
    AllBack(s0, s, vm.Now(), c);
  }

  /** proc_freepagetable: every page of the tree is free again, but not the trapframe. */
  method ProcFreepagetable(vm: Vm, c: Page, sz: nat)
    requires vm.Valid() && Root(c) in vm.node && PageUp(sz) <= TRAPFRAME && Present(Lookup(vm.Now(), c, TRAPFRAME))
    requires Lookup(vm.Now(), c, TRAPFRAME).ppn in vm.own && vm.own[Lookup(vm.Now(), c, TRAPFRAME).ppn] == Held
    requires forall v: nat {:trigger OwnFrame(vm.Now(), c, v)} :: v < PageUp(sz) ==> OwnFrame(vm.Now(), c, v)
    requires forall v: nat {:trigger Lookup(vm.Now(), c, v)} :: v >= PageUp(sz) && v != TRAPFRAME ==>
               !Present(Lookup(vm.Now(), c, v))
    modifies vm, vm.kmem
    ensures vm.Valid() && vm.Keeps(vm.own, old(vm.kmem.data)) && TreeGone(old(vm.Now()), vm.Now(), c)
  {
    ghost var s0 := vm.Now();
    var ok, stop := vm.Uvmunmap(c, TRAPFRAME, 1, false);
    ghost var s1 := vm.Now();
    StillFrames(s0, s1, c, sz);
    vm.Uvmfree(c, sz);
    GoneThrough(s0, s1, vm.Now(), c);
  }

  // Unmapping the trapframe, which is the kernel's, moves no page.
  lemma StillFrames(s0: S, s1: S, c: Page, sz: nat)
    requires Inv(s0, {}) && Unmapped(s0, s1, c, TRAPFRAME, TRAPFRAME + 1, Taken) && PageUp(sz) <= TRAPFRAME
    requires Present(Lookup(s0, c, TRAPFRAME)) && Lookup(s0, c, TRAPFRAME).ppn in s0.own
    requires s0.own[Lookup(s0, c, TRAPFRAME).ppn] == Held
    ensures s1.own == s0.own
    ensures forall v: nat {:trigger OwnFrame(s1, c, v)} :: v < PageUp(sz) && OwnFrame(s0, c, v) ==> OwnFrame(s1, c, v)
  {
    forall p | p in s0.own ensures s0.own[p] != Frame(c, TRAPFRAME) { assert AtPage(p); }
    forall p | p in s0.own ensures s1.own[p] == s0.own[p] { }
  }

  lemma GoneThrough(s0: S, s1: S, s2: S, c: Page)
    requires Unmapped(s0, s1, c, TRAPFRAME, TRAPFRAME + 1, Taken) && s1.own == s0.own && TreeGone(s1, s2, c)
    ensures TreeGone(s0, s2, c)
  {
  }

  // No table maps page p.
  ghost predicate MappedNowhere(s: S, p: Page) {
    forall r: Page, v: nat {:trigger Lookup(s, r, v)} :: Present(Lookup(s, r, v)) ==> Lookup(s, r, v).ppn != p
  }

  // A page that is free is mapped nowhere.
  lemma FreeUnmapped(s: S, p: Page)
    requires Inv(s, {}) && p in s.own && (s.own[p] == Free || s.own[p] == Taken)
    ensures MappedNowhere(s, p)
  {
    forall r: Page, v: nat {:trigger Lookup(s, r, v)} | Present(Lookup(s, r, v))
      ensures Lookup(s, r, v).ppn != p
    {
      FrameIs(s, r, v);
    }
  }

  // A page of the kernel's that is mapped nowhere can change hands.
  lemma ReleaseKeeps(s: S, p: Page)
    requires Inv(s, {}) && p in s.own && s.own[p] == Held && MappedNowhere(s, p)
    ensures Inv(s.(own := s.own[p := Taken]), {}) && SameMap(s, s.(own := s.own[p := Taken]))
  {
    var s' := s.(own := s.own[p := Taken]);
    forall k: Key, i: int {:trigger AtEntry(k, i)} | AtEntry(k, i) && k in s'.node && 0 <= i < 512
      ensures AtNode(k) && EntryOk(s', k, i)
    {
      assert AtNode(k) && AtEntry(k, i);
      if k.l == 0 {
        assert (k.n * 512 + i) / 512 == k.n && (k.n * 512 + i) % 512 == i;
        assert Lookup(s, k.r, k.n * 512 + i) == s.tab[s.node[k]][i];
      }
    }
  }

  // kalloc of a page that the kernel keeps.
  method TakeTrapframe(vm: Vm) returns (tf: Option<Page>)
    requires vm.Valid()
    modifies vm, vm.kmem
    ensures vm.Valid() && vm.Keeps(old(vm.own), old(vm.kmem.data)) && vm.node == old(vm.node)
    ensures SameMap(old(vm.Now()), vm.Now())
    ensures tf.None? ==> vm.own == old(vm.own)
    ensures tf.Some? ==>
              tf.value in old(vm.own) && old(vm.own)[tf.value] == Free && vm.own == old(vm.own)[tf.value := Held]
    ensures tf.Some? ==> MappedNowhere(vm.Now(), tf.value)
    ensures tf.Some? <==> |Frees(old(vm.own))| >= 1
    ensures tf.Some? ==> |Frees(vm.own)| == |Frees(old(vm.own))| - 1
  {
    tf := vm.Take();
    if tf.None? {
      NoneFree(vm.own);
    } else {
      FreeUnmapped(vm.Now(), tf.value);
      FreesUpdate(vm.own, tf.value, Held);
      OwnKeeps(vm.Now(), tf.value, Held);
      vm.own := vm.own[tf.value := Held];
    }
  }

  // kfree of that page.
  method GiveTrapframe(vm: Vm, tf: Page)
    requires vm.Valid() && tf in vm.own && vm.own[tf] == Held && MappedNowhere(vm.Now(), tf)
    modifies vm, vm.kmem
    ensures vm.Valid() && vm.Keeps(vm.own, old(vm.kmem.data)) && SameMap(old(vm.Now()), vm.Now())
    ensures vm.own == old(vm.own)[tf := Free]
  {
    ReleaseKeeps(vm.Now(), tf);
    vm.own := vm.own[tf := Taken];
    vm.Give(tf);
  }

  // A new process: its trapframe and its page table.
  datatype Child = Child(tf: Page, root: Page)

  // What fork asks of the parent's memory.
  ghost predicate Forkable(s: S, r: Page, sz: nat) {
    && Root(r) in s.node && PageUp(sz) <= TRAPFRAME
    && (forall v: nat {:trigger Lookup(s, r, v)} :: v < PageUp(sz) ==>
          Present(Lookup(s, r, v)) && Low(Lookup(s, r, v).flags) != PTE_V)
    && (forall v: nat {:trigger UserPage(s, r, v)} :: v >= PageUp(sz) ==> UserPage(s, r, v) == None)
  }

  // The page table that a failed uvmcopy leaves can be taken down as empty.
  lemma CopyUndone(s1: S, s2: S, s3: S, c: Page, tf: Page)
    requires OnlyFor(s1, s2, c) && TrapOnly(s1, s2, c, tf) && Grew(s2, s3, c) && tf in s1.own && s1.own[tf] == Held
    ensures OnlyFor(s1, s3, c) && TrapOnly(s1, s3, c, tf) && s3.own[tf] == Held
  {
    assert s3.own[tf] == s2.own[tf] == s1.own[tf];
  }

  // fork's way out when uvmcopy fails.
  method ForkFailed(vm: Vm, c: Child, ghost s1: S, ghost d1: Ram)
    requires vm.Valid() && Root(c.root) in vm.node && Inv(s1, {}) && Root(c.root) !in s1.node && vm.Keeps(s1.own, d1)
    requires OnlyFor(s1, vm.Now(), c.root) && TrapOnly(s1, vm.Now(), c.root, c.tf)
    requires c.tf in s1.own && s1.own[c.tf] == Held && vm.own[c.tf] == Held && MappedNowhere(s1, c.tf)
    modifies vm, vm.kmem
    ensures vm.Valid() && SameMap(s1, vm.Now()) && vm.own == s1.own[c.tf := Free] && vm.Keeps(s1.own[c.tf := Free], d1)
  {
    ghost var s3 := vm.Now();
    assert Lookup(s3, c.root, TRAPFRAME) == Pte(c.tf, On(TRAP));
    ProcFreepagetable(vm, c.root, 0);
    AllBack(s1, s3, vm.Now(), c.root);
    assert MappedNowhere(vm.Now(), c.tf);
    GiveTrapframe(vm, c.tf);
  }

  // The trapframe is taken: s1 and d1 are the state at that point.
  ghost predicate Started(s0: S, d0: Ram, s1: S, d1: Ram, tf: Page) {
    && Inv(s1, {}) && s1.node == s0.node && SameMap(s0, s1) && tf in s0.own && s0.own[tf] == Free
    && s1.own == s0.own[tf := Held] && MappedNowhere(s1, tf) && Kept(s0.own, d0, d1)
  }

  /**
    allocproc's memory: a trapframe and a page table with it, or every page as
    it was, exactly when fewer than five pages are free.
   */
  method Allocproc(vm: Vm) returns (c: Option<Child>, ghost s1: S, ghost d1: Ram)
    requires vm.Valid()
    modifies vm, vm.kmem
    ensures vm.Valid() && vm.Keeps(old(vm.own), old(vm.kmem.data))
    ensures c.None? ==> vm.own == old(vm.own) && SameMap(old(vm.Now()), vm.Now())
    ensures c.Some? ==> Started(old(vm.Now()), old(vm.kmem.data), s1, d1, c.value.tf) && vm.Keeps(s1.own, d1)
    ensures c.Some? ==> Root(c.value.root) !in s1.node && Root(c.value.root) in vm.node
    ensures c.Some? ==> forall k :: k in s1.node ==> k in vm.node
    ensures c.Some? ==> OnlyFor(s1, vm.Now(), c.value.root) && TrapOnly(s1, vm.Now(), c.value.root, c.value.tf)
    ensures c.Some? <==> |Frees(old(vm.own))| >= 5
    ensures c.Some? ==> Slack(vm.Now(), c.value.root) == |Frees(old(vm.own))| - 5
  {
    s1, d1 := vm.Now(), vm.kmem.data;
    var tf := TakeTrapframe(vm);
    if tf.None? {
      return None, s1, d1;
    }
    s1, d1 := vm.Now(), vm.kmem.data;
    var root := ProcPagetable(vm, tf.value);
    if root.None? {
      assert MappedNowhere(vm.Now(), tf.value);
      GiveTrapframe(vm, tf.value);
      return None, s1, d1;
    }
    c := Some(Child(tf.value, root.value));
  }

  /**
    The memory side of fork, with allocproc and freeproc. It succeeds exactly
    when the free pages suffice: one for each page of the parent, a trapframe
    and four tables. Then the child reads what the parent read, and shares no
    frame. Otherwise every page belongs to whom it belonged to and no mapping
    has changed.
   */
  method Fork(vm: Vm, r: Page, sz: nat) returns (c: Option<Child>)
    requires vm.Valid() && Forkable(vm.Now(), r, sz)
    modifies vm, vm.kmem
    ensures vm.Valid() && vm.Keeps(old(vm.own), old(vm.kmem.data))
    ensures c.None? ==> vm.own == old(vm.own) && SameMap(old(vm.Now()), vm.Now())
    ensures c.Some? ==> forall a: nat {:trigger UserByte(vm.Now(), vm.kmem.data, c.value.root, a)} ::
                          UserByte(vm.Now(), vm.kmem.data, c.value.root, a)
                          == UserByte(old(vm.Now()), old(vm.kmem.data), r, a)
    ensures c.Some? ==> forall v: nat, w: nat :: v < PageUp(sz) && w < PageUp(sz) ==>
                          Lookup(vm.Now(), r, v).ppn != Lookup(vm.Now(), c.value.root, w).ppn
    ensures c.Some? <==> |Frees(old(vm.own))| >= PageUp(sz) + 5
  {
    ghost var s0, d0 := vm.Now(), vm.kmem.data;
    ghost var s1, d1;
    c, s1, d1 := Allocproc(vm);
    if c.None? {
      return;
    }
    ghost var s2, d2 := vm.Now(), vm.kmem.data;
    var ok := vm.Uvmcopy(r, c.value.root, sz);
    if ok {
      ForkReadsSame(s0, d0, s2, d2, vm.Now(), vm.kmem.data, r, c.value.root, PageUp(sz));
    } else {
      CopyUndone(s1, s2, vm.Now(), c.value.root, c.value.tf);
      ForkFailed(vm, c.value, s1, d1);
      c := None;
    }
  }

  lemma ForkReadsSame(s0: S, d0: Ram, s2: S, d2: Ram, s3: S, d3: Ram, r: Page, c: Page, n: nat)
    requires Inv(s0, {}) && Inv(s2, {}) && Inv(s3, {}) && r != c && Kept(s0.own, d0, d2) && Kept(s2.own, d2, d3)
    requires Extended(s2, s3, c, 0, n) && Copied(s2, d2, r, s3, d3, c, n)
    requires forall v: nat {:trigger Lookup(s2, r, v)} :: Lookup(s2, r, v) == Lookup(s0, r, v)
    requires forall v: nat {:trigger Lookup(s0, r, v)} :: v < n ==> Present(Lookup(s0, r, v))
    requires forall v: nat {:trigger UserPage(s0, r, v)} :: v >= n ==> UserPage(s0, r, v) == None
    requires forall v: nat {:trigger UserPage(s2, c, v)} :: UserPage(s2, c, v) == None
    ensures forall a: nat {:trigger UserByte(s3, d3, c, a)} :: UserByte(s3, d3, c, a) == UserByte(s0, d0, r, a)
    ensures forall v: nat, w: nat :: v < n && w < n ==> Lookup(s3, r, v).ppn != Lookup(s3, c, w).ppn
  {
    forall v: nat {:trigger UserPage(s2, r, v)} | v >= n
      ensures UserPage(s2, r, v) == None && UserPage(s2, c, v) == None
    {
      assert Lookup(s2, r, v) == Lookup(s0, r, v) && UserPage(s0, r, v) == None;
    }
    ForkCopies(s2, d2, s3, d3, r, c, n);
    forall a: nat {:trigger UserByte(s3, d3, c, a)} ensures UserByte(s3, d3, c, a) == UserByte(s0, d0, r, a) {
      var v := a / PGSIZE;
      assert Lookup(s2, r, v) == Lookup(s0, r, v);
      if Present(Lookup(s0, r, v)) { SameContent(s0, d0, d2, r, v); }
    }
  }

  // ------------------------------------------------- where promises fall short

  // uvmdealloc from a size beyond the mapped memory does not return.
  method DeallocBeyondPanics(k: Kmem) returns (sz: Option<nat>)
    requires k.Valid() && forall p :: p in k.free <==> InRam(p)
    modifies k
    ensures sz == None
  {
    var vm := new Vm(k);
    var r := vm.Uvmcreate();
    assert AtRam(FIRST);
    forall v: nat ensures Freeable(vm.Now(), r.value, v, true) { assert Lookup(vm.Now(), r.value, v) == NoPte; }
    assert !Present(Lookup(vm.Now(), r.value, 0));
    sz := vm.Uvmdealloc(r.value, PGSIZE, 0);
  }

  // Flags above bit 31 are lost in a copy: a user page made non-executable
  // would be executable in the child, and an entry with no flag but that one
  // would turn into a pointer to a table. No caller maps such user pages.
  lemma FlagsLost()
    ensures var nx := On(USER).(high := 0x4000_0000_0000_0000);
            Leaf(Pte(FIRST, nx)) && ForUser(Pte(FIRST, nx)) && Low(nx) != nx
    ensures Low(Flags(true, 0, 0, 0x4000_0000_0000_0000)) == PTE_V
  {
  }
}
