/**
  The page-table trees of all processes, as a value (kernel/vm.c). A virtual
  page number is split into four 9-bit indices. The table that covers a prefix
  of a page number is named by its root, its level and that prefix.
 */
module PageTable {

  type Page = nat  // physical page number

  // PTE_FLAGS of an entry: the valid bit, the privilege level, the other bits
  // below bit 9 and the bits from bit 61 up, each still in its own place.
  datatype Flags = Flags(v: bool, plv: bv64, low: bv64, high: bv64)

  // An entry: the physical page of PTE2PA, and its flags.
  datatype Pte = Pte(ppn: Page, flags: Flags)

  const NoFlags := Flags(false, 0, 0, 0)
  const PTE_V := Flags(true, 0, 0, 0)
  const NoPte := Pte(0, NoFlags)

  predicate Present(e: Pte) { e.flags.v }

  predicate ForUser(e: Pte) { e.flags.plv != 0 }

  // A present entry that is not a pointer to a lower table.
  predicate Leaf(e: Pte) { Present(e) && e.flags != PTE_V }

  // ------------------------------------------------------------------ names

  // level 3 is the root's; level 0 holds the leaves.
  datatype Key = Key(r: Page, l: nat, n: nat)

  function Root(r: Page): Key { Key(r, 3, 0) }

  function Child(k: Key, i: nat): Key
    requires k.l > 0
  {
    Key(k.r, k.l - 1, k.n * 512 + i)
  }

  function Parent(k: Key): Key { Key(k.r, k.l + 1, k.n / 512) }

  function Index(k: Key): nat { k.n % 512 }

  lemma ChildIs(k: Key, i: nat)
    requires k.l > 0 && i < 512
    ensures Parent(Child(k, i)) == k && Index(Child(k, i)) == i
  {
    assert (k.n * 512 + i) / 512 == k.n && (k.n * 512 + i) % 512 == i;
  }

  lemma ParentIs(k: Key)
    ensures Index(k) < 512 && Child(Parent(k), Index(k)) == k
  {
  }

  // The leaf table of virtual page v.
  function LeafKey(r: Page, v: nat): Key { Key(r, 0, v / 512) }

  // ------------------------------------------------------------------ state

  // Who a physical page belongs to. A Taken page came from kalloc and is not in
  // a table yet; a Held page is the kernel's, and a table may map it, but not
  // for the user.
  datatype Owner = Free | Taken | Held | Table(k: Key) | Frame(r: Page, v: nat)

  datatype S = S(tab: map<Page, seq<Pte>>, own: map<Page, Owner>, node: map<Key, Page>)

  // What the tables say of virtual page v of the tree at r.
  ghost function Lookup(s: S, r: Page, v: nat): Pte {
    var k := LeafKey(r, v);
    if k in s.node && s.node[k] in s.tab && |s.tab[s.node[k]]| == 512 then s.tab[s.node[k]][v % 512] else NoPte
  }

  ghost predicate NodeOk(s: S, k: Key)
    requires k in s.node
  {
    var p := s.node[k];
    && k.l <= 3 && p in s.own && s.own[p] == Table(k) && p in s.tab && |s.tab[p]| == 512
    && (k.l == 3 ==> k == Root(p))
    && (k.l < 3 ==>
          && var u := Parent(k);
          u in s.node && s.node[u] in s.tab && |s.tab[s.node[u]]| == 512 && s.tab[s.node[u]][Index(k)] == Pte(p, PTE_V))
  }

  ghost predicate EntryOk(s: S, k: Key, i: nat)
    requires k in s.node && s.node[k] in s.tab && i < |s.tab[s.node[k]]|
  {
    var e := s.tab[s.node[k]][i];
    if !Present(e) then e == NoPte
    else if k.l > 0 then Child(k, i) in s.node && e == Pte(s.node[Child(k, i)], PTE_V)
    else Leaf(e) && e.ppn in s.own &&
         ((s.own[e.ppn] == Held && !ForUser(e)) || s.own[e.ppn] == Frame(k.r, k.n * 512 + i))
  }

  ghost predicate OwnerOk(s: S, p: Page)
    requires p in s.own
  {
    match s.own[p]
    case Table(k) => k in s.node && s.node[k] == p
    case Frame(r, v) => Present(Lookup(s, r, v)) && Lookup(s, r, v).ppn == p
    case _ => true
  }

  // Always true; the handles by which the invariant is used.
  ghost predicate AtNode(k: Key) { true }
  ghost predicate AtEntry(k: Key, i: int) { true }
  ghost predicate AtPage(p: Page) { true }

  ghost predicate Nodes(s: S) {
    forall k: Key {:trigger AtNode(k)} :: AtNode(k) && k in s.node ==> NodeOk(s, k)
  }

  // hole: the entry that points to a table just freed, if any.
  ghost predicate Entries(s: S, hole: set<Key>)
    requires Nodes(s)
  {
    forall k: Key, i: int {:trigger AtEntry(k, i)} ::
      AtEntry(k, i) && k in s.node && 0 <= i < 512 && !(k.l > 0 && Child(k, i) in hole) ==>
      AtNode(k) && EntryOk(s, k, i)
  }

  ghost predicate Owners(s: S) {
    forall p: Page {:trigger AtPage(p)} :: AtPage(p) && p in s.own ==> OwnerOk(s, p)
  }

  ghost predicate Inv(s: S, hole: set<Key>) {
    Nodes(s) && Entries(s, hole) && Owners(s) && forall k :: k in hole ==> k !in s.node
  }

  ghost predicate SameMap(s: S, s': S) {
    forall r, v {:trigger Lookup(s', r, v)} :: Lookup(s', r, v) == Lookup(s, r, v)
  }

  // Every table's tree reaches up to its root.
  lemma RootPresent(s: S, k: Key)
    requires Nodes(s) && k in s.node
    ensures Root(k.r) in s.node && s.node[Root(k.r)] == k.r
    decreases 3 - k.l
  {
    assert AtNode(k);
    if k.l < 3 {
      RootPresent(s, Parent(k));
    }
  }

  // An entry whose child has no table is empty.
  lemma NoChild(s: S, k: Key, i: nat)
    requires Inv(s, {}) && k in s.node && k.l > 0 && i < 512 && Child(k, i) !in s.node
    ensures AtNode(k) && s.tab[s.node[k]][i] == NoPte
  {
    assert AtNode(k) && AtEntry(k, i);
  }

  // ---------------------------------------------------------------- changes

  ghost function AddRoot(s: S, p: Page): S {
    S(s.tab[p := seq(512, _ => NoPte)], s.own[p := Table(Root(p))], s.node[Root(p) := p])
  }

  // A new table under entry i of k.
  ghost function AddTable(s: S, k: Key, i: nat, p: Page): S
    requires k in s.node && s.node[k] in s.tab && i < |s.tab[s.node[k]]| && k.l > 0
  {
    var u := s.node[k];
    S(s.tab[p := seq(512, _ => NoPte)][u := s.tab[u][i := Pte(p, PTE_V)]],
      s.own[p := Table(Child(k, i))], s.node[Child(k, i) := p])
  }

  ghost function SetLeaf(s: S, r: Page, v: nat, e: Pte, p: Page, o: Owner): S
    requires LeafKey(r, v) in s.node && s.node[LeafKey(r, v)] in s.tab && |s.tab[s.node[LeafKey(r, v)]]| == 512
  {
    var u := s.node[LeafKey(r, v)];
    S(s.tab[u := s.tab[u][v % 512 := e]], s.own[p := o], s.node)
  }

  // Entry i of k emptied.
  ghost function DropEntry(s: S, k: Key, i: nat): S
    requires k in s.node && s.node[k] in s.tab && i < |s.tab[s.node[k]]|
  {
    s.(tab := s.tab[s.node[k] := s.tab[s.node[k]][i := NoPte]])
  }

  // The page of table k given back.
  ghost function DropTable(s: S, k: Key): S
    requires k in s.node
  {
    S(s.tab, s.own[s.node[k] := Free], s.node - {k})
  }

  lemma AddRootNodes(s: S, p: Page)
    requires Inv(s, {}) && p in s.own && s.own[p] == Taken
    ensures Nodes(AddRoot(s, p)) && Root(p) !in s.node
    ensures forall k {:trigger k in s.node} :: k in s.node ==> k.r != p && s.node[k] != p
  {
    var s' := AddRoot(s, p);
    forall k | k in s.node ensures k.r != p && s.node[k] != p {
      RootPresent(s, k);
      assert AtNode(k) && AtNode(Root(k.r));
    }
    forall k {:trigger AtNode(k)} | AtNode(k) && k in s'.node ensures NodeOk(s', k) {
      if k != Root(p) {
        assert AtNode(k);
        if k.l < 3 { assert AtNode(Parent(k)); }
      }
    }
  }

  // uvmcreate: an empty tree, and no other tree changes.
  lemma AddRootKeeps(s: S, p: Page)
    requires Inv(s, {}) && p in s.own && s.own[p] == Taken
    ensures Inv(AddRoot(s, p), {}) && SameMap(s, AddRoot(s, p))
    ensures forall v :: Lookup(s, p, v) == NoPte
  {
    AddRootNodes(s, p);
  }

  lemma AddTableNodes(s: S, k: Key, i: nat, p: Page)
    requires Inv(s, {}) && k in s.node && k.l > 0 && i < 512 && Child(k, i) !in s.node && p in s.own
    requires s.own[p] == Taken
    ensures AtNode(k) && Nodes(AddTable(s, k, i, p))
    ensures forall j {:trigger j in s.node} :: j in s.node ==> s.node[j] != p && (s.node[j] == s.node[k] ==> j == k)
  {
    NoChild(s, k, i);
    ChildIs(k, i);
    var s' := AddTable(s, k, i, p);
    forall j | j in s.node ensures s.node[j] != p && (s.node[j] == s.node[k] ==> j == k) {
      assert AtNode(j);
    }
    forall j {:trigger AtNode(j)} | AtNode(j) && j in s'.node ensures NodeOk(s', j) {
      if j != Child(k, i) && j.l < 3 {
        assert AtNode(Parent(j));
        ParentIs(j);
      }
    }
  }

  lemma AddTableEntries(s: S, k: Key, i: nat, p: Page)
    requires Inv(s, {}) && k in s.node && k.l > 0 && i < 512 && Child(k, i) !in s.node && p in s.own
    requires s.own[p] == Taken
    ensures AtNode(k) && Nodes(AddTable(s, k, i, p)) && Entries(AddTable(s, k, i, p), {})
  {
    AddTableNodes(s, k, i, p);
    var s' := AddTable(s, k, i, p);
    forall j: Key, m: int {:trigger AtEntry(j, m)} | AtEntry(j, m) && j in s'.node && 0 <= m < 512
      ensures AtNode(j) && EntryOk(s', j, m)
    {
      assert AtNode(j);
    }
  }

  // walk with alloc: a new empty table changes no mapping.
  lemma AddTableKeeps(s: S, k: Key, i: nat, p: Page)
    requires Inv(s, {}) && k in s.node && k.l > 0 && i < 512 && Child(k, i) !in s.node && p in s.own
    requires s.own[p] == Taken
    ensures AtNode(k) && Inv(AddTable(s, k, i, p), {}) && SameMap(s, AddTable(s, k, i, p))
  {
    AddTableNodes(s, k, i, p);
    AddTableEntries(s, k, i, p);
  }

  // What a change of one leaf entry, and of the owner of its page p, must obey.
  ghost predicate LeafChange(s: S, r: Page, v: nat, e: Pte, p: Page, o: Owner) {
    && LeafKey(r, v) in s.node && p in s.own && !s.own[p].Table? && !o.Table?
    && (s.own[p].Frame? ==> s.own[p] == Frame(r, v)) && (s.own[p] == Held ==> o == Held)
    && (o.Frame? ==> o == Frame(r, v) && Present(e) && e.ppn == p)
    && (if Present(e) then Leaf(e) && e.ppn == p && ((o == Held && !ForUser(e)) || o.Frame?) else e == NoPte)
    && (Present(Lookup(s, r, v)) ==> Lookup(s, r, v).ppn == p)
  }

  lemma LeafIs(v: nat)
    ensures v / 512 * 512 + v % 512 == v && 0 <= v % 512 < 512
    ensures forall w: nat {:trigger w / 512} :: w / 512 == v / 512 && w % 512 == v % 512 ==> w == v
  {
  }

  lemma SetLeafNodes(s: S, r: Page, v: nat, e: Pte, p: Page, o: Owner)
    requires Inv(s, {}) && LeafChange(s, r, v, e, p, o)
    ensures AtNode(LeafKey(r, v)) && Nodes(SetLeaf(s, r, v, e, p, o))
    ensures forall j {:trigger j in s.node} :: j in s.node ==>
              s.node[j] != p && (s.node[j] == s.node[LeafKey(r, v)] ==> j == LeafKey(r, v))
  {
    assert AtNode(LeafKey(r, v));
    forall j | j in s.node ensures s.node[j] != p && (s.node[j] == s.node[LeafKey(r, v)] ==> j == LeafKey(r, v)) {
      assert AtNode(j);
    }
    var s' := SetLeaf(s, r, v, e, p, o);
    forall j {:trigger AtNode(j)} | AtNode(j) && j in s'.node ensures NodeOk(s', j) {
      if j.l < 3 { assert AtNode(Parent(j)); }
    }
  }

  lemma SetLeafEntries(s: S, r: Page, v: nat, e: Pte, p: Page, o: Owner)
    requires Inv(s, {}) && LeafChange(s, r, v, e, p, o)
    ensures AtNode(LeafKey(r, v)) && Nodes(SetLeaf(s, r, v, e, p, o)) && Entries(SetLeaf(s, r, v, e, p, o), {})
  {
    SetLeafNodes(s, r, v, e, p, o);
    LeafIs(v);
    var s' := SetLeaf(s, r, v, e, p, o);
    forall j: Key, m: int {:trigger AtEntry(j, m)} | AtEntry(j, m) && j in s'.node && 0 <= m < 512
      ensures AtNode(j) && EntryOk(s', j, m)
    {
      assert AtNode(j);
    }
  }

  /** A single map or unmap changes exactly its own entry of the page map. */
  lemma SetLeafKeeps(s: S, r: Page, v: nat, e: Pte, p: Page, o: Owner)
    requires Inv(s, {}) && LeafChange(s, r, v, e, p, o)
    ensures AtNode(LeafKey(r, v)) && Inv(SetLeaf(s, r, v, e, p, o), {})
    ensures forall r', v' {:trigger Lookup(SetLeaf(s, r, v, e, p, o), r', v')} ::
              Lookup(SetLeaf(s, r, v, e, p, o), r', v') == if r' == r && v' == v then e else Lookup(s, r', v')
  {
    SetLeafNodes(s, r, v, e, p, o);
    SetLeafEntries(s, r, v, e, p, o);
    LeafIs(v);
  }

  lemma DropTableNodes(s: S, k: Key)
    requires Inv(s, {}) && k in s.node && AtNode(k) && (forall i :: 0 <= i < 512 ==> s.tab[s.node[k]][i] == NoPte)
    ensures Nodes(DropTable(s, k))
    ensures forall j {:trigger j in s.node} :: j in s.node ==> j != k ==>
              s.node[j] != s.node[k] && (j.l < 3 ==> Parent(j) != k)
  {
    forall j | j in s.node && j != k ensures s.node[j] != s.node[k] && (j.l < 3 ==> Parent(j) != k) {
      assert AtNode(j);
    }
    var s' := DropTable(s, k);
    forall j {:trigger AtNode(j)} | AtNode(j) && j in s'.node ensures NodeOk(s', j) {
      assert AtNode(j);
    }
  }

  // freewalk: giving back an empty table leaves only the entry above it wrong.
  lemma DropTableKeeps(s: S, k: Key)
    requires Inv(s, {}) && k in s.node && AtNode(k) && (forall i :: 0 <= i < 512 ==> s.tab[s.node[k]][i] == NoPte)
    ensures Inv(DropTable(s, k), {k}) && SameMap(s, DropTable(s, k))
  {
    DropTableNodes(s, k);
  }

  lemma DropEntryNodes(s: S, k: Key, i: nat)
    requires k in s.node && k.l > 0 && i < 512 && Inv(s, {Child(k, i)})
    ensures AtNode(k) && Nodes(DropEntry(s, k, i))
    ensures forall j {:trigger j in s.node} :: j in s.node ==> s.node[j] == s.node[k] ==> j == k
  {
    assert AtNode(k);
    forall j | j in s.node ensures s.node[j] == s.node[k] ==> j == k {
      assert AtNode(j);
    }
    var s' := DropEntry(s, k, i);
    forall j {:trigger AtNode(j)} | AtNode(j) && j in s'.node ensures NodeOk(s', j) {
      ParentIs(j);
      if j.l < 3 { assert AtNode(Parent(j)); }
    }
  }

  lemma DropEntryKeeps(s: S, k: Key, i: nat)
    requires k in s.node && k.l > 0 && i < 512 && Inv(s, {Child(k, i)})
    ensures AtNode(k) && Inv(DropEntry(s, k, i), {}) && SameMap(s, DropEntry(s, k, i))
  {
    DropEntryNodes(s, k, i);
    var s' := DropEntry(s, k, i);
    forall j: Key, m: int {:trigger AtEntry(j, m)} | AtEntry(j, m) && j in s'.node && 0 <= m < 512
      ensures AtNode(j) && EntryOk(s', j, m)
    {
      assert AtNode(j);
      if j.l > 0 { ChildIs(j, m); }
      ChildIs(k, i);
    }
  }
}
