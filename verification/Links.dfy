/**
  Link counts and directory entries (kernel/sysfile.c, kernel/fs.c). An inode
  with links that is a directory is a linked directory. A call of link counts
  its new link before it writes the entry; until then the link is pending.
 */
module Links {
  const T_DIR := 1
  const T_FILE := 2
  const T_DEVICE := 3
  const ROOTINO := 1

  datatype Dirent = Dirent(inum: nat, name: string)

  const NoEntry := Dirent(0, "")

  datatype Node = Node(typ: int, nlink: int, dir: seq<Dirent>)

  const FreeNode := Node(0, 0, [])

  predicate Linked(n: Node) { n.typ == T_DIR && n.nlink > 0 }

  // ---------------------------------------------------------------- counting

  function One(e: Dirent, i: nat): nat { if e.inum == i && e.name != "." then 1 else 0 }

  // Entries of a directory that name i, not counting ".".
  function Names(dir: seq<Dirent>, i: nat): nat {
    if dir == [] then 0 else Names(dir[..|dir| - 1], i) + One(dir[|dir| - 1], i)
  }

  function Contrib(n: Node, i: nat): nat { if Linked(n) then Names(n.dir, i) else 0 }

  // Entries of all linked directories that name i.
  function Count(node: seq<Node>, i: nat): nat {
    if node == [] then 0 else Count(node[..|node| - 1], i) + Contrib(node[|node| - 1], i)
  }

  lemma {:induction false} NamesUpdate(dir: seq<Dirent>, k: nat, e: Dirent, i: nat)
    requires k < |dir|
    ensures Names(dir[k := e], i) == Names(dir, i) - One(dir[k], i) + One(e, i)
  {
    var n := |dir| - 1;
    if k == n {
      assert dir[k := e][..n] == dir[..n];
    } else {
      NamesUpdate(dir[..n], k, e, i);
      assert dir[k := e][..n] == dir[..n][k := e];
    }
  }

  lemma {:induction false} NamesZero(dir: seq<Dirent>, i: nat)
    requires forall k :: 0 <= k < |dir| ==> One(dir[k], i) == 0
    ensures Names(dir, i) == 0
  {
    if dir != [] { NamesZero(dir[..|dir| - 1], i); }
  }

  lemma {:induction false} NamesOne(dir: seq<Dirent>, k: nat, i: nat)
    requires k < |dir|
    ensures Names(dir, i) >= One(dir[k], i)
  {
    if k < |dir| - 1 { NamesOne(dir[..|dir| - 1], k, i); }
  }

  lemma {:induction false} CountUpdate(node: seq<Node>, d: nat, n: Node, i: nat)
    requires d < |node|
    ensures Count(node[d := n], i) == Count(node, i) - Contrib(node[d], i) + Contrib(n, i)
  {
    var m := |node| - 1;
    if d == m {
      assert node[d := n][..m] == node[..m];
    } else {
      CountUpdate(node[..m], d, n, i);
      assert node[d := n][..m] == node[..m][d := n];
    }
  }

  lemma {:induction false} CountZero(node: seq<Node>, i: nat)
    requires forall d :: 0 <= d < |node| ==> Contrib(node[d], i) == 0
    ensures Count(node, i) == 0
  {
    if node != [] { CountZero(node[..|node| - 1], i); }
  }

  lemma {:induction false} CountOne(node: seq<Node>, d: nat, i: nat)
    requires d < |node|
    ensures Count(node, i) >= Contrib(node[d], i)
  {
    if d < |node| - 1 { CountOne(node[..|node| - 1], d, i); }
  }

  // -------------------------------------------------------------- directories

  // The place dirlink writes to: an empty entry, or one past the last.
  function Put(dir: seq<Dirent>, k: nat, e: Dirent): seq<Dirent>
    requires k <= |dir|
  {
    if k < |dir| then dir[k := e] else dir + [e]
  }

  lemma PutNames(dir: seq<Dirent>, k: nat, e: Dirent, i: nat)
    requires k <= |dir| && (k < |dir| ==> dir[k].inum == 0) && i > 0
    ensures Names(Put(dir, k, e), i) == Names(dir, i) + One(e, i)
  {
    if k < |dir| {
      NamesUpdate(dir, k, e, i);
    } else {
      assert (dir + [e])[..|dir|] == dir;
    }
  }

  predicate Present(dir: seq<Dirent>, name: string) {
    exists k :: 0 <= k < |dir| && dir[k].inum != 0 && dir[k].name == name
  }

  // isdirempty
  predicate Empty(dir: seq<Dirent>) { forall j :: 2 <= j < |dir| ==> dir[j].inum == 0 }

  // -------------------------------------------------------------- invariant

  // at: where the parent of a linked directory names it.
  datatype State = State(node: seq<Node>, pending: seq<nat>, at: seq<nat>)

  ghost predicate Shape(s: State) {
    |s.pending| == |s.node| == |s.at| && ROOTINO < |s.node| && Linked(s.node[ROOTINO])
  }

  // nlink is the number of entries, and pending links.
  ghost predicate CountOk(s: State, i: nat)
    requires Shape(s) && i < |s.node|
  {
    && (i > 0 ==> s.node[i].nlink == Count(s.node, i) + s.pending[i])
    && (s.node[i].typ == 0 ==> s.node[i].nlink == 0 && s.pending[i] == 0)
    && (s.pending[i] > 0 ==> s.node[i].typ != T_DIR)
  }

  // "." and ".." first, and the parent is linked and has an entry for d.
  ghost predicate DotsOk(s: State, d: nat)
    requires Shape(s) && d < |s.node|
  {
    var dir := s.node[d].dir;
    && |dir| >= 2 && dir[0] == Dirent(d, ".") && dir[1].name == ".." && 0 < d
    && (d == ROOTINO ==> dir[1].inum == d)
    && (d != ROOTINO ==>
          && var p := dir[1].inum;
          0 < p < |s.node| && Linked(s.node[p]) && 2 <= s.at[d] < |s.node[p].dir| && s.node[p].dir[s.at[d]].inum == d)
  }

  // No other entry names a directory, and names are unique.
  ghost predicate SlotOk(s: State, d: nat, k: nat)
    requires Shape(s) && d < |s.node| && k < |s.node[d].dir|
  {
    var e := s.node[d].dir[k];
    && e.inum < |s.node|
    && (e.inum != 0 && k >= 2 ==>
          && e.name != "." && e.name != ".."
          && (s.node[e.inum].typ == T_DIR ==>
                e.inum != ROOTINO && |s.node[e.inum].dir| >= 2 && s.node[e.inum].dir[1].inum == d && s.at[e.inum] == k))
  }

  ghost predicate Unique(dir: seq<Dirent>) {
    forall j, k {:trigger AtName(j), AtName(k)} ::
      AtName(j) && AtName(k) && 0 <= j < k < |dir| && dir[j].inum != 0 && dir[k].inum != 0 ==>
      dir[j].name != dir[k].name
  }

  // A directory whose last link is gone keeps its dots and has nothing else.
  ghost predicate Bare(s: State, d: nat)
    requires d < |s.node|
  {
    var dir := s.node[d].dir;
    && 0 < d && |dir| >= 2 && dir[0] == Dirent(d, ".") && dir[1].name == ".." && 0 < dir[1].inum < |s.node|
    && Empty(dir)
  }

  // Always true; the handles by which the invariant is used.
  ghost predicate AtCount(i: int) { true }
  ghost predicate AtDots(d: int) { true }
  ghost predicate AtSlot(d: int, k: int) { true }
  ghost predicate AtDir(d: int) { true }
  ghost predicate AtName(k: int) { true }
  ghost predicate AtBare(d: int) { true }

  ghost predicate Counts(s: State)
    requires Shape(s)
  {
    forall i {:trigger AtCount(i)} :: AtCount(i) && 0 <= i < |s.node| ==> CountOk(s, i)
  }

  ghost predicate Dots(s: State)
    requires Shape(s)
  {
    forall d {:trigger AtDots(d)} :: AtDots(d) && 0 <= d < |s.node| && Linked(s.node[d]) ==> DotsOk(s, d)
  }

  ghost predicate Slots(s: State)
    requires Shape(s)
  {
    forall d, k {:trigger AtSlot(d, k)} ::
      AtSlot(d, k) && 0 <= d < |s.node| && Linked(s.node[d]) && 0 <= k < |s.node[d].dir| ==> SlotOk(s, d, k)
  }

  ghost predicate NamesUnique(s: State) {
    forall d {:trigger AtDir(d)} :: AtDir(d) && 0 <= d < |s.node| && Linked(s.node[d]) ==> Unique(s.node[d].dir)
  }

  ghost predicate Unlinkeds(s: State) {
    forall d {:trigger AtBare(d)} :: AtBare(d) && 0 <= d < |s.node| && s.node[d].typ == T_DIR && !Linked(s.node[d]) ==>
      Bare(s, d)
  }

  ghost predicate Inv(s: State) { Shape(s) && Counts(s) && Dots(s) && Slots(s) && NamesUnique(s) && Unlinkeds(s) }

  // A nonempty entry of a linked directory names an inode in use.
  lemma NoDangling(s: State, d: nat, k: nat)
    requires Inv(s) && d < |s.node| && Linked(s.node[d]) && k < |s.node[d].dir| && s.node[d].dir[k].inum != 0 && k != 0
    ensures var i := s.node[d].dir[k].inum; i < |s.node| && s.node[i].typ != 0 && s.node[i].nlink >= 1
  {
    var i := s.node[d].dir[k].inum;
    assert AtSlot(d, k) && AtDots(d) && AtCount(i);
    NamesOne(s.node[d].dir, k, i);
    CountOne(s.node, d, i);
  }

  // ----------------------------------------------------------------- changes

  // dirlink(d, name, i) at place k.
  ghost predicate CanPut(s: State, d: nat, name: string, k: nat) {
    && Inv(s) && d < |s.node| && s.node[d].typ == T_DIR && !Present(s.node[d].dir, name)
    && k <= |s.node[d].dir| && (k < |s.node[d].dir| ==> s.node[d].dir[k].inum == 0)
  }

  // The same in a directory that is still linked.
  ghost predicate CanLink(s: State, d: nat, name: string, k: nat) { CanPut(s, d, name, k) && Linked(s.node[d]) }

  lemma LinkPlace(s: State, d: nat, name: string, k: nat)
    requires CanPut(s, d, name, k)
    ensures k >= 2 && name != "." && name != ".." && |s.node[d].dir| >= 2 && d > 0
  {
    assert AtDots(d) && AtBare(d);
    assert s.node[d].dir[0].inum != 0 && s.node[d].dir[1].inum != 0;
  }

  lemma PutUnique(dir: seq<Dirent>, k: nat, e: Dirent)
    requires Unique(dir) && k <= |dir| && (k < |dir| ==> dir[k].inum == 0) && !Present(dir, e.name)
    ensures Unique(Put(dir, k, e))
  {
  }

  // create: inode i of a given type, named by d.
  ghost function Created(s: State, d: nat, name: string, k: nat, i: nat, typ: int): State
    requires CanPut(s, d, name, k) && i < |s.node|
  {
    var up := if typ == T_DIR then 1 else 0;
    var dots := if typ == T_DIR then [Dirent(i, "."), Dirent(d, "..")] else [];
    var dir := Put(s.node[d].dir, k, Dirent(i, name));
    State(s.node[i := Node(typ, 1, dots)][d := Node(T_DIR, s.node[d].nlink + up, dir)],
          s.pending, if typ == T_DIR then s.at[i := k] else s.at)
  }

  ghost predicate CanCreate(s: State, d: nat, name: string, k: nat, i: nat, typ: int) {
    CanPut(s, d, name, k) && 0 < i < |s.node| && s.node[i].typ == 0 && typ != 0
  }

  lemma CreatedCount(s: State, d: nat, name: string, k: nat, i: nat, typ: int, j: nat)
    requires CanCreate(s, d, name, k, i, typ) && Linked(s.node[d]) && j > 0
    ensures Count(Created(s, d, name, k, i, typ).node, j) ==
              Count(s.node, j) + (if j == i then 1 else 0) + (if typ == T_DIR && j == d then 1 else 0)
  {
    LinkPlace(s, d, name, k);
    var n1 := s.node[i := Created(s, d, name, k, i, typ).node[i]];
    assert AtCount(i) && i != d;
    CountUpdate(s.node, i, n1[i], j);
    CountUpdate(n1, d, Created(s, d, name, k, i, typ).node[d], j);
    PutNames(s.node[d].dir, k, Dirent(i, name), j);
    DotsNames(i, d, j);
  }

  lemma DotsNames(i: nat, d: nat, j: nat)
    ensures Names([Dirent(i, "."), Dirent(d, "..")], j) == if j == d then 1 else 0
  {
    var x := [Dirent(i, "."), Dirent(d, "..")];
    assert x[..1] == [Dirent(i, ".")] && x[..1][..0] == [];
    assert Names(x[..1], j) == 0;
  }

  lemma CreatedCounts(s: State, d: nat, name: string, k: nat, i: nat, typ: int)
    requires CanCreate(s, d, name, k, i, typ) && Linked(s.node[d])
    ensures Shape(Created(s, d, name, k, i, typ)) && Counts(Created(s, d, name, k, i, typ))
  {
    var s' := Created(s, d, name, k, i, typ);
    assert AtCount(i) && AtCount(d);
    forall j {:trigger AtCount(j)} | AtCount(j) && 0 <= j < |s'.node| ensures CountOk(s', j) {
      if j > 0 { CreatedCount(s, d, name, k, i, typ, j); }
    }
  }

  lemma CreatedDirs(s: State, d: nat, name: string, k: nat, i: nat, typ: int)
    requires CanCreate(s, d, name, k, i, typ) && Linked(s.node[d])
    ensures var s' := Created(s, d, name, k, i, typ); Shape(s') && Dots(s') && NamesUnique(s')
  {
    var s' := Created(s, d, name, k, i, typ);
    LinkPlace(s, d, name, k);
    assert AtCount(i) && AtDots(d) && AtDir(d);
    PutUnique(s.node[d].dir, k, Dirent(i, name));
    forall c {:trigger AtDots(c)} | AtDots(c) && 0 <= c < |s'.node| && Linked(s'.node[c]) ensures DotsOk(s', c) {
      assert c == i || Linked(s.node[c]);
    }
  }

  lemma CreatedSlots(s: State, d: nat, name: string, k: nat, i: nat, typ: int)
    requires CanCreate(s, d, name, k, i, typ) && Linked(s.node[d])
    ensures var s' := Created(s, d, name, k, i, typ); Shape(s') && Slots(s')
  {
    var s' := Created(s, d, name, k, i, typ);
    LinkPlace(s, d, name, k);
    assert AtCount(i) && AtDots(d);
    forall c, j {:trigger AtSlot(c, j)} |
      AtSlot(c, j) && 0 <= c < |s'.node| && Linked(s'.node[c]) && 0 <= j < |s'.node[c].dir|
      ensures SlotOk(s', c, j)
    {
      if c != i && !(c == d && j == k) && j >= 2 && s.node[c].dir[j].inum != 0 {
        NoDangling(s, c, j);
      }
    }
  }

  lemma CreatedKeeps(s: State, d: nat, name: string, k: nat, i: nat, typ: int)
    requires CanCreate(s, d, name, k, i, typ) && Linked(s.node[d])
    ensures Inv(Created(s, d, name, k, i, typ))
  {
    CreatedCounts(s, d, name, k, i, typ);
    CreatedDirs(s, d, name, k, i, typ);
    CreatedSlots(s, d, name, k, i, typ);
    assert AtBare(d);
  }

  // In a directory without links the new inode's link is not counted, or the
  // ".." of that directory is counted once more.
  lemma CreatedBreaks(s: State, d: nat, name: string, k: nat, i: nat, typ: int)
    requires CanCreate(s, d, name, k, i, typ) && !Linked(s.node[d])
    ensures !Inv(Created(s, d, name, k, i, typ))
  {
    var s' := Created(s, d, name, k, i, typ);
    LinkPlace(s, d, name, k);
    assert AtBare(d) && AtCount(i) && AtCount(d) && i != d;
    var p := if typ == T_DIR then s.node[d].dir[1].inum else i;
    assert AtCount(p);
    var n1 := s.node[i := s'.node[i]];
    CountUpdate(s.node, i, n1[i], p);
    CountUpdate(n1, d, s'.node[d], p);
    PutNames(s.node[d].dir, k, Dirent(i, name), p);
    DotsNames(i, d, p);
    NamesOne(s.node[d].dir, 1, p);
  }

  // ------------------------------------------------------------------ unlink

  ghost predicate CanUnlink(s: State, d: nat, k: nat) {
    && Inv(s) && d < |s.node| && Linked(s.node[d]) && 2 <= k < |s.node[d].dir|
    && var i := s.node[d].dir[k].inum;
    0 < i < |s.node| && (s.node[i].typ == T_DIR ==> Empty(s.node[i].dir))
  }

  // Entry k of d is cleared, and the inode it named has one link fewer.
  ghost function Unlinked(s: State, d: nat, k: nat): State
    requires CanUnlink(s, d, k)
  {
    var i := s.node[d].dir[k].inum;
    var up := if s.node[i].typ == T_DIR then 1 else 0;
    var node := s.node[d := Node(T_DIR, s.node[d].nlink - up, s.node[d].dir[k := NoEntry])];
    s.(node := node[i := node[i].(nlink := node[i].nlink - 1)])
  }

  // What an empty directory under d names: d, once.
  lemma {:induction false} EmptyNames(dir: seq<Dirent>, d: nat, j: nat)
    requires |dir| >= 2 && dir[0].name == "." && dir[1].inum == d && dir[1].name != "." && Empty(dir) && j > 0
    ensures Names(dir, j) == if j == d then 1 else 0
    decreases |dir|
  {
    if |dir| > 2 {
      EmptyNames(dir[..|dir| - 1], d, j);
    } else {
      assert dir[..1][..0] == [] && Names(dir[..1], j) == 0;
    }
  }

  // The directory to be removed, and its parent.
  lemma RemovedDir(s: State, d: nat, k: nat)
    requires CanUnlink(s, d, k)
    ensures var i := s.node[d].dir[k].inum;
            i != d && s.node[i].nlink >= 1 && d > 0 && s.node[d].dir[k].name != "."
    ensures var i := s.node[d].dir[k].inum;
            s.node[i].typ == T_DIR ==>
              && i != ROOTINO && |s.node[i].dir| >= 2 && s.at[i] == k
              && s.node[i].dir[0] == Dirent(i, ".") && s.node[i].dir[1] == Dirent(d, "..")
  {
    var i := s.node[d].dir[k].inum;
    NoDangling(s, d, k);
    assert AtSlot(d, k) && AtDots(i) && AtDots(d) && AtCount(0);
  }

  // No linked directory has an empty directory as its parent.
  lemma NoChildren(s: State, d: nat, k: nat, c: nat)
    requires CanUnlink(s, d, k) && s.node[s.node[d].dir[k].inum].typ == T_DIR && c < |s.node| && Linked(s.node[c])
    ensures |s.node[c].dir| >= 2 && s.node[c].dir[1].inum != s.node[d].dir[k].inum
  {
    RemovedDir(s, d, k);
    assert AtDots(c);
  }

  // Its entry in d is the only one that names it.
  lemma OnlyLink(s: State, d: nat, k: nat)
    requires CanUnlink(s, d, k) && s.node[s.node[d].dir[k].inum].typ == T_DIR
    ensures s.node[s.node[d].dir[k].inum].nlink == 1
  {
    var i := s.node[d].dir[k].inum;
    RemovedDir(s, d, k);
    var cleared := s.node[d].(dir := s.node[d].dir[k := NoEntry]);
    var node := s.node[d := cleared];
    forall c | 0 <= c < |node| ensures Contrib(node[c], i) == 0 {
      if Linked(node[c]) {
        NoChildren(s, d, k, c);
        forall j | 0 <= j < |node[c].dir| ensures One(node[c].dir[j], i) == 0 {
          assert AtDots(c) && AtSlot(c, j);
        }
        NamesZero(node[c].dir, i);
      }
    }
    CountZero(node, i);
    CountUpdate(s.node, d, cleared, i);
    NamesUpdate(s.node[d].dir, k, NoEntry, i);
    assert AtCount(i);
  }

  // d has another link than the ".." that goes.
  lemma ParentStays(s: State, d: nat, k: nat)
    requires CanUnlink(s, d, k) && s.node[s.node[d].dir[k].inum].typ == T_DIR
    ensures s.node[d].nlink >= 2
  {
    var i := s.node[d].dir[k].inum;
    RemovedDir(s, d, k);
    OnlyLink(s, d, k);
    var gone := s.node[i].(nlink := 0);
    CountUpdate(s.node, i, gone, d);
    EmptyNames(s.node[i].dir, d, d);
    assert AtDots(d) && AtCount(d);
    var p := s.node[d].dir[1].inum;
    var j := if d == ROOTINO then 1 else s.at[d];
    assert AtSlot(p, j) && AtDots(p);
    NamesOne(s.node[p].dir, j, d);
    CountOne(s.node[i := gone], p, d);
  }

  lemma UnlinkedCount(s: State, d: nat, k: nat, j: nat)
    requires CanUnlink(s, d, k) && j > 0
    ensures var i := s.node[d].dir[k].inum;
            Count(Unlinked(s, d, k).node, j) ==
              Count(s.node, j) - (if j == i then 1 else 0) - (if s.node[i].typ == T_DIR && j == d then 1 else 0)
  {
    var i := s.node[d].dir[k].inum;
    var s' := Unlinked(s, d, k);
    RemovedDir(s, d, k);
    if s.node[i].typ == T_DIR {
      OnlyLink(s, d, k);
      ParentStays(s, d, k);
      EmptyNames(s.node[i].dir, d, j);
    }
    CountUpdate(s.node, d, s'.node[d], j);
    CountUpdate(s.node[d := s'.node[d]], i, s'.node[i], j);
    NamesUpdate(s.node[d].dir, k, NoEntry, j);
  }

  lemma UnlinkedCounts(s: State, d: nat, k: nat)
    requires CanUnlink(s, d, k)
    ensures Shape(Unlinked(s, d, k)) && Counts(Unlinked(s, d, k))
  {
    var i := s.node[d].dir[k].inum;
    var s' := Unlinked(s, d, k);
    RemovedDir(s, d, k);
    assert AtCount(i) && AtCount(d) && AtDots(ROOTINO);
    if s.node[i].typ == T_DIR { ParentStays(s, d, k); }
    forall j {:trigger AtCount(j)} | AtCount(j) && 0 <= j < |s'.node| ensures CountOk(s', j) {
      if j > 0 { UnlinkedCount(s, d, k, j); }
    }
  }

  // Directories that stay linked.
  lemma StillLinked(s: State, d: nat, k: nat, c: nat)
    requires CanUnlink(s, d, k) && c < |s.node|
    ensures var i := s.node[d].dir[k].inum; Linked(Unlinked(s, d, k).node[c]) <==> Linked(s.node[c]) && c != i
  {
    RemovedDir(s, d, k);
    if s.node[s.node[d].dir[k].inum].typ == T_DIR {
      ParentStays(s, d, k);
      OnlyLink(s, d, k);
    }
  }

  lemma UnlinkedDots(s: State, d: nat, k: nat)
    requires CanUnlink(s, d, k)
    ensures Shape(Unlinked(s, d, k)) && Dots(Unlinked(s, d, k))
  {
    var i := s.node[d].dir[k].inum;
    var s' := Unlinked(s, d, k);
    RemovedDir(s, d, k);
    StillLinked(s, d, k, ROOTINO);
    forall c {:trigger AtDots(c)} | AtDots(c) && 0 <= c < |s'.node| && Linked(s'.node[c]) ensures DotsOk(s', c) {
      StillLinked(s, d, k, c);
      assert AtDots(c);
      if s.node[i].typ == T_DIR { NoChildren(s, d, k, c); }
      StillLinked(s, d, k, s.node[c].dir[1].inum);
    }
  }

  lemma UnlinkedSlots(s: State, d: nat, k: nat)
    requires CanUnlink(s, d, k)
    ensures Shape(Unlinked(s, d, k)) && Slots(Unlinked(s, d, k)) && NamesUnique(Unlinked(s, d, k))
  {
    var s' := Unlinked(s, d, k);
    RemovedDir(s, d, k);
    StillLinked(s, d, k, ROOTINO);
    forall c, j {:trigger AtSlot(c, j)} |
      AtSlot(c, j) && 0 <= c < |s'.node| && Linked(s'.node[c]) && 0 <= j < |s'.node[c].dir|
      ensures SlotOk(s', c, j)
    {
      StillLinked(s, d, k, c);
      assert AtSlot(c, j);
    }
    forall c {:trigger AtDir(c)} | AtDir(c) && 0 <= c < |s'.node| && Linked(s'.node[c]) ensures Unique(s'.node[c].dir) {
      StillLinked(s, d, k, c);
      assert AtDir(c);
    }
  }

  lemma UnlinkedBare(s: State, d: nat, k: nat)
    requires CanUnlink(s, d, k)
    ensures Unlinkeds(Unlinked(s, d, k))
  {
    var s' := Unlinked(s, d, k);
    RemovedDir(s, d, k);
    forall c {:trigger AtBare(c)} | AtBare(c) && 0 <= c < |s'.node| && s'.node[c].typ == T_DIR && !Linked(s'.node[c])
      ensures Bare(s', c)
    {
      StillLinked(s, d, k, c);
      assert AtBare(c);
    }
  }

  lemma UnlinkedKeeps(s: State, d: nat, k: nat)
    requires CanUnlink(s, d, k)
    ensures Inv(Unlinked(s, d, k))
  {
    UnlinkedBare(s, d, k);
    UnlinkedCounts(s, d, k);
    UnlinkedDots(s, d, k);
    UnlinkedSlots(s, d, k);
  }

  // ---------------------------------------------------------- link and release

  ghost function Begun(s: State, i: nat): State
    requires Shape(s) && i < |s.node|
  {
    State(s.node[i := s.node[i].(nlink := s.node[i].nlink + 1)], s.pending[i := s.pending[i] + 1], s.at)
  }

  ghost function Undone(s: State, i: nat): State
    requires Shape(s) && i < |s.node| && s.pending[i] > 0
  {
    State(s.node[i := s.node[i].(nlink := s.node[i].nlink - 1)], s.pending[i := s.pending[i] - 1], s.at)
  }

  ghost function Ended(s: State, i: nat, d: nat, name: string, k: nat): State
    requires CanPut(s, d, name, k) && i < |s.node| && s.pending[i] > 0
  {
    State(s.node[d := s.node[d].(dir := Put(s.node[d].dir, k, Dirent(i, name)))],
          s.pending[i := s.pending[i] - 1], s.at)
  }

  ghost function Released(s: State, i: nat): State
    requires i < |s.node|
  {
    s.(node := s.node[i := FreeNode])
  }

  // A change of an inode that is no linked directory, before or after.
  lemma OtherNode(s: State, s': State, i: nat)
    requires Inv(s) && i < |s.node| == |s'.node| && !Linked(s.node[i]) && !Linked(s'.node[i])
    requires |s'.pending| == |s.node| && s'.at == s.at
    requires s'.node == s.node[i := s'.node[i]]
    requires s'.node[i].typ == T_DIR ==> s.node[i].typ == T_DIR && s'.node[i].dir == s.node[i].dir
    ensures Shape(s') && Dots(s') && Slots(s') && NamesUnique(s') && Unlinkeds(s')
    ensures forall j: nat {:trigger Count(s'.node, j)} :: Count(s'.node, j) == Count(s.node, j)
  {
    assert i != ROOTINO;
    forall j: nat {:trigger Count(s'.node, j)} ensures Count(s'.node, j) == Count(s.node, j) {
      CountUpdate(s.node, i, s'.node[i], j);
    }
    forall c, j {:trigger AtSlot(c, j)} |
      AtSlot(c, j) && 0 <= c < |s'.node| && Linked(s'.node[c]) && 0 <= j < |s'.node[c].dir|
      ensures SlotOk(s', c, j)
    {
      assert AtSlot(c, j);
    }
  }

  lemma CountsByNode(s: State, s': State, i: nat)
    requires Inv(s) && Shape(s') && i < |s.node| == |s'.node|
    requires s'.node == s.node[i := s'.node[i]] && s'.pending == s.pending[i := s'.pending[i]]
    requires forall j: nat {:trigger Count(s'.node, j)} :: Count(s'.node, j) == Count(s.node, j)
    requires CountOk(s', i)
    ensures Counts(s')
  {
    forall j {:trigger AtCount(j)} | AtCount(j) && 0 <= j < |s'.node| ensures CountOk(s', j) {
      assert Count(s'.node, j) == Count(s.node, j);
    }
  }

  lemma BegunKeeps(s: State, i: nat)
    requires Inv(s) && 0 < i < |s.node| && s.node[i].typ != 0 && s.node[i].typ != T_DIR
    ensures Inv(Begun(s, i))
  {
    assert AtCount(i);
    OtherNode(s, Begun(s, i), i);
    CountsByNode(s, Begun(s, i), i);
  }

  lemma UndoneKeeps(s: State, i: nat)
    requires Inv(s) && 0 < i < |s.node| && s.pending[i] > 0
    ensures Inv(Undone(s, i))
  {
    assert AtCount(i);
    OtherNode(s, Undone(s, i), i);
    CountsByNode(s, Undone(s, i), i);
  }

  lemma ReleasedKeeps(s: State, i: nat)
    requires Inv(s) && 0 < i < |s.node| && s.node[i].nlink == 0 && s.pending[i] == 0
    ensures Inv(Released(s, i))
  {
    assert AtCount(i);
    OtherNode(s, Released(s, i), i);
    CountsByNode(s, Released(s, i), i);
  }

  lemma EndedCounts(s: State, i: nat, d: nat, name: string, k: nat)
    requires CanLink(s, d, name, k) && 0 < i < |s.node| && s.pending[i] > 0
    ensures Shape(Ended(s, i, d, name, k)) && Counts(Ended(s, i, d, name, k))
  {
    var s' := Ended(s, i, d, name, k);
    LinkPlace(s, d, name, k);
    assert AtCount(i);
    forall j {:trigger AtCount(j)} | AtCount(j) && 0 <= j < |s'.node| ensures CountOk(s', j) {
      if j > 0 {
        CountUpdate(s.node, d, s'.node[d], j);
        PutNames(s.node[d].dir, k, Dirent(i, name), j);
      }
    }
  }

  lemma EndedKeeps(s: State, i: nat, d: nat, name: string, k: nat)
    requires CanLink(s, d, name, k) && 0 < i < |s.node| && s.pending[i] > 0
    ensures Inv(Ended(s, i, d, name, k))
  {
    var s' := Ended(s, i, d, name, k);
    EndedCounts(s, i, d, name, k);
    LinkPlace(s, d, name, k);
    assert AtCount(i) && AtDots(d) && AtDir(d);
    PutUnique(s.node[d].dir, k, Dirent(i, name));
    forall c, j {:trigger AtSlot(c, j)} |
      AtSlot(c, j) && 0 <= c < |s'.node| && Linked(s'.node[c]) && 0 <= j < |s'.node[c].dir|
      ensures SlotOk(s', c, j)
    {
      assert AtSlot(c, j);
    }
    forall c {:trigger AtDots(c)} | AtDots(c) && 0 <= c < |s'.node| && Linked(s'.node[c]) ensures DotsOk(s', c) {
      assert AtDots(c);
    }
  }

  // In a directory without links the new entry does not count.
  lemma EndedBreaks(s: State, i: nat, d: nat, name: string, k: nat)
    requires CanPut(s, d, name, k) && !Linked(s.node[d]) && 0 < i < |s.node| && s.pending[i] > 0
    ensures !Inv(Ended(s, i, d, name, k))
  {
    assert AtCount(i) && i != d;
    CountUpdate(s.node, d, Ended(s, i, d, name, k).node[d], i);
  }

  /**
    With no call of link under way, every inode's nlink is the number of entries
    that name it in linked directories, not counting ".".
   */
  lemma LinkCounts(s: State, i: nat)
    requires Inv(s) && 0 < i < |s.node| && s.pending[i] == 0
    ensures s.node[i].nlink == Count(s.node, i)
  {
    assert AtCount(i);
  }

  lemma UniqueNames(s: State, d: nat, j: nat, k: nat)
    requires Inv(s) && d < |s.node| && Linked(s.node[d]) && j < k < |s.node[d].dir|
    requires s.node[d].dir[j].inum != 0 && s.node[d].dir[k].inum != 0
    ensures s.node[d].dir[j].name != s.node[d].dir[k].name
  {
    assert AtDir(d) && AtName(j) && AtName(k);
  }
}
