/** create, link and unlink over directories (kernel/sysfile.c, kernel/fs.c). */
module SysFile {
  import opened Links

  // Found: an existing file. NoInodes: ialloc panics. NoType: ilock panics.
  datatype Outcome = Made(i: nat) | Found(i: nat) | Refused | NoInodes | NoType

  // The first entry that is in use and has the name.
  predicate FirstNamed(dir: seq<Dirent>, name: string, k: nat) {
    && k < |dir| && dir[k].inum != 0 && dir[k].name == name
    && forall j :: 0 <= j < k ==> dir[j].inum == 0 || dir[j].name != name
  }

  // The first empty entry, or the end.
  predicate FirstEmpty(dir: seq<Dirent>, k: nat) {
    k <= |dir| && (k < |dir| ==> dir[k].inum == 0) && forall j :: 0 <= j < k ==> dir[j].inum != 0
  }

  class Files {
    var node: seq<Node>
    ghost var pending: seq<nat>
    ghost var at: seq<nat>

    ghost function Now(): State reads this { State(node, pending, at) }

    ghost predicate Valid() reads this { Inv(Now()) }

    // dirlookup
    method Dirlookup(d: nat, name: string) returns (k: nat)
      requires d < |node| && node[d].typ == T_DIR
      ensures k < |node[d].dir| ==> FirstNamed(node[d].dir, name, k)
      ensures k >= |node[d].dir| ==> !Present(node[d].dir, name)
    {
      k := 0;
      while k < |node[d].dir|
        invariant 0 <= k <= |node[d].dir| && forall j ::
            0 <= j < k ==> node[d].dir[j].inum == 0 || node[d].dir[j].name != name
      {
        if node[d].dir[k].inum != 0 && node[d].dir[k].name == name {
          return;
        }
        k := k + 1;
      }
    }

    // dirlink
    method Dirlink(d: nat, name: string, i: nat) returns (ok: bool, ghost k: nat)
      requires d < |node| && node[d].typ == T_DIR
      modifies this`node
      ensures ok == !Present(old(node)[d].dir, name)
      ensures !ok ==> node == old(node)
      ensures ok ==> FirstEmpty(old(node)[d].dir, k)
      ensures ok ==> node == old(node)[d := old(node)[d].(dir := Put(old(node)[d].dir, k, Dirent(i, name)))]
    {
      var found := Dirlookup(d, name);
      if found < |node[d].dir| {
        return false, 0;
      }
      var off := 0;
      while off < |node[d].dir|
        invariant 0 <= off <= |node[d].dir| && node == old(node)
        invariant forall j :: 0 <= j < off ==> node[d].dir[j].inum != 0
      {
        if node[d].dir[off].inum == 0 {
          break;
        }
        off := off + 1;
      }
      node := node[d := node[d].(dir := Put(node[d].dir, off, Dirent(i, name)))];
      ok, k := true, off;
    }

    // isdirempty
    method Isdirempty(d: nat) returns (yes: bool)
      requires d < |node|
      ensures yes == Empty(node[d].dir)
    {
      var off := 2;
      while off < |node[d].dir|
        invariant 2 <= off && forall j :: 2 <= j < off && j < |node[d].dir| ==> node[d].dir[j].inum == 0
      {
        if node[d].dir[off].inum != 0 {
          return false;
        }
        off := off + 1;
      }
      yes := true;
    }

    // ialloc's search: the first free inode above 0.
    method FindInode() returns (i: nat)
      requires |node| > 0
      ensures 0 < i <= |node| && (i < |node| ==> node[i].typ == 0) && forall j :: 0 < j < i ==> node[j].typ != 0
    {
      i := 1;
      while i < |node|
        invariant 0 < i <= |node| && forall j :: 0 < j < i ==> node[j].typ != 0
      {
        if node[i].typ == 0 {
          return;
        }
        i := i + 1;
      }
    }

    // The part of create that makes an inode.
    method Make(d: nat, name: string, typ: int, i: nat) returns (ghost k: nat)
      requires Valid() && d < |node| && node[d].typ == T_DIR && !Present(node[d].dir, name)
      requires typ != 0 && 0 < i < |node| && node[i].typ == 0
      modifies this
      ensures FirstEmpty(old(node)[d].dir, k) && (Valid() <==> Linked(old(node)[d]))
      ensures CanCreate(old(Now()), d, name, k, i, typ) && Now() == Created(old(Now()), d, name, k, i, typ)
    {
      node := node[i := Node(typ, 1, [])];
      if typ == T_DIR {
        node := node[d := node[d].(nlink := node[d].nlink + 1)];
        var ok, _ := Dirlink(i, ".", i);
        assert node[i].dir == [Dirent(i, ".")];
        var ok', _ := Dirlink(i, "..", d);
        assert node[i].dir == [Dirent(i, "."), Dirent(d, "..")];
      }
      var ok;
      ok, k := Dirlink(d, name, i);
      at := if typ == T_DIR then at[i := k] else at;
      assert Now() == Created(old(Now()), d, name, k, i, typ);
      if Linked(old(node)[d]) {
        CreatedKeeps(old(Now()), d, name, k, i, typ);
      } else {
        CreatedBreaks(old(Now()), d, name, k, i, typ);
      }
    }

    /**
      create: an existing file, a refusal, or a new inode with one link and, for
      a directory, its two dots. The link counts stay right exactly if nothing
      is made or the directory is still linked, which create does not test.
     */
    method Create(d: nat, name: string, typ: int) returns (r: Outcome, ghost k: nat)
      requires Valid() && d < |node| && node[d].typ == T_DIR && typ != 0
      modifies this
      ensures Valid() <==> !r.Made? || Linked(old(node)[d])
      ensures r.Made? ==>
                CanCreate(old(Now()), d, name, k, r.i, typ) && Now() == Created(old(Now()), d, name, k, r.i, typ)
      ensures !r.Made? ==> Now() == old(Now())
      ensures Present(old(node)[d].dir, name) ==>
                && FirstNamed(node[d].dir, name, k) && node[d].dir[k].inum < |node|
                && var i := node[d].dir[k].inum;
                r == if node[i].typ == 0 then NoType
                     else if typ == T_FILE && node[i].typ in {T_FILE, T_DEVICE} then Found(i)
                     else Refused
      ensures r.NoType? ==> !Linked(node[d]) && name == ".."
      ensures !Present(old(node)[d].dir, name) ==> r.Made? || r.NoInodes?
      ensures r.NoInodes? ==> forall j :: 0 < j < |node| ==> node[j].typ != 0
    {
      var m := Dirlookup(d, name);
      k := m;
      if m < |node[d].dir| {
        var i := node[d].dir[m].inum;
        assert AtSlot(d, m) && AtBare(d);
        if Linked(node[d]) {
          if m != 0 { NoDangling(Now(), d, m); } else { assert AtDots(d); }
        }
        if node[i].typ == 0 {
          return NoType, k;
        }
        if typ == T_FILE && (node[i].typ == T_FILE || node[i].typ == T_DEVICE) {
          return Found(i), k;
        }
        return Refused, k;
      }
      var i := FindInode();
      if i >= |node| {
        return NoInodes, k;
      }
      k := Make(d, name, typ, i);
      r := Made(i);
    }

    // unlink, once its entry is found.
    method Remove(d: nat, k: nat) returns (ok: bool)
      requires Valid() && d < |node| && Linked(node[d]) && 2 <= k < |node[d].dir| && node[d].dir[k].inum != 0
      modifies this
      ensures Valid() && ok == CanUnlink(old(Now()), d, k)
      ensures Now() == if ok then Unlinked(old(Now()), d, k) else old(Now())
    {
      assert AtSlot(d, k);
      NoDangling(Now(), d, k);
      var i := node[d].dir[k].inum;
      assert node[i].nlink >= 1;
      if node[i].typ == T_DIR {
        var empty := Isdirempty(i);
        if !empty {
          return false;
        }
      }
      RemovedDir(Now(), d, k);
      UnlinkedKeeps(Now(), d, k);
      node := node[d := node[d].(dir := node[d].dir[k := NoEntry])];
      if node[i].typ == T_DIR {
        node := node[d := node[d].(nlink := node[d].nlink - 1)];
      }
      node := node[i := node[i].(nlink := node[i].nlink - 1)];
      assert node == Unlinked(old(Now()), d, k).node;
      ok := true;
    }

    /**
      unlink. It succeeds exactly for a present name other than the dots whose
      inode is no directory with entries, and the panic on nlink < 1 is never
      reached.
     */
    method Unlink(d: nat, name: string) returns (ok: bool, ghost k: nat)
      requires Valid() && d < |node| && node[d].typ == T_DIR
      modifies this
      ensures Valid()
      ensures ok ==> FirstNamed(old(node)[d].dir, name, k) && CanUnlink(old(Now()), d, k)
      ensures ok ==> Now() == Unlinked(old(Now()), d, k)
      ensures !ok ==> Now() == old(Now())
      ensures !ok && name != "." && name != ".." && Present(node[d].dir, name) ==>
                FirstNamed(node[d].dir, name, k) && !CanUnlink(Now(), d, k)
    {
      if name == "." || name == ".." {
        return false, 0;
      }
      var m := Dirlookup(d, name);
      k := m;
      if m >= |node[d].dir| {
        return false, k;
      }
      assert AtDots(d) && AtBare(d);
      ok := Remove(d, m);
    }

    // link, up to the unlock of its inode.
    method LinkBegin(i: nat) returns (ok: bool)
      requires Valid() && 0 < i < |node| && node[i].typ != 0
      modifies this
      ensures Valid() && ok == (old(node)[i].typ != T_DIR) && Now() == if ok then Begun(old(Now()), i) else old(Now())
    {
      if node[i].typ == T_DIR {
        return false;
      }
      BegunKeeps(Now(), i);
      node := node[i := node[i].(nlink := node[i].nlink + 1)];
      pending := pending[i := pending[i] + 1];
      ok := true;
    }

    // The rest of link. Like create it does not test whether the directory is
    // still linked.
    method LinkEnd(i: nat, d: nat, name: string) returns (ok: bool, ghost k: nat)
      requires Valid() && 0 < i < |node| && pending[i] > 0 && d < |node| && node[d].typ == T_DIR
      modifies this
      ensures ok == !Present(old(node)[d].dir, name) && (Valid() <==> !ok || Linked(old(node)[d]))
      ensures ok ==> CanPut(old(Now()), d, name, k) && Now() == Ended(old(Now()), i, d, name, k)
      ensures !ok ==> Now() == Undone(old(Now()), i)
    {
      ok, k := Dirlink(d, name, i);
      if ok {
        if Linked(old(node)[d]) {
          EndedKeeps(old(Now()), i, d, name, k);
        } else {
          EndedBreaks(old(Now()), i, d, name, k);
        }
        pending := pending[i := pending[i] - 1];
        assert Now() == Ended(old(Now()), i, d, name, k);
      } else {
        LinkBad(i);
      }
    }

    // link, when there is no directory for the new name.
    method LinkBad(i: nat)
      requires Valid() && 0 < i < |node| && pending[i] > 0
      modifies this
      ensures Valid() && Now() == Undone(old(Now()), i)
    {
      UndoneKeeps(Now(), i);
      node := node[i := node[i].(nlink := node[i].nlink - 1)];
      pending := pending[i := pending[i] - 1];
    }

    // iput of the last reference to an inode without links.
    method Release(i: nat)
      requires Valid() && 0 < i < |node| && node[i].nlink == 0 && pending[i] == 0
      modifies this
      ensures Valid() && Now() == Released(old(Now()), i)
    {
      ReleasedKeeps(Now(), i);
      node := node[i := FreeNode];
    }
  }

  /** link and then unlink of the new name leaves every link count as it was. */
  lemma LinkThenUnlink(s: State, i: nat, d: nat, name: string, k: nat)
    requires Inv(s) && 0 < i < |s.node| && s.node[i].typ != 0 && s.node[i].typ != T_DIR && d != i
    requires CanLink(Begun(s, i), d, name, k)
    ensures var s' := Ended(Begun(s, i), i, d, name, k);
            CanUnlink(s', d, k) && forall j :: 0 <= j < |s.node| ==> Unlinked(s', d, k).node[j].nlink == s.node[j].nlink
  {
    BegunKeeps(s, i);
    EndedKeeps(Begun(s, i), i, d, name, k);
    LinkPlace(Begun(s, i), d, name, k);
  }

  /**
    A file made in a directory that has been removed but is still open: it has
    one link and no entry anywhere names it.
   */
  lemma LostFile(s: State)
    requires |s.node| == 4 == |s.pending| == |s.at| && (forall i :: 0 <= i < 4 ==> s.pending[i] == 0)
    requires s.node[1] == Node(T_DIR, 1, [Dirent(1, "."), Dirent(1, "..")])
    requires s.node[0] == s.node[2] == s.node[3] == FreeNode
    ensures CanCreate(s, 1, "d", 2, 2, T_DIR)
    ensures var s1 := Created(s, 1, "d", 2, 2, T_DIR);
            && CanUnlink(s1, 1, 2)
            && var s2 := Unlinked(s1, 1, 2);
            && CanCreate(s2, 2, "f", 2, 3, T_FILE)
            && var s3 := Created(s2, 2, "f", 2, 3, T_FILE);
            !Inv(s3) && s3.node[3].nlink == 1 && Count(s3.node, 3) == 0
  {
    FreshImage(s);
    CreatedKeeps(s, 1, "d", 2, 2, T_DIR);
    var s1 := Created(s, 1, "d", 2, 2, T_DIR);
    assert s1.node[1].dir[2] == Dirent(2, "d");
    UnlinkedKeeps(s1, 1, 2);
    var s2 := Unlinked(s1, 1, 2);
    assert s2.node[2].dir == [Dirent(2, "."), Dirent(1, "..")];
    CreatedBreaks(s2, 2, "f", 2, 3, T_FILE);
    var s3 := Created(s2, 2, "f", 2, 3, T_FILE);
    assert s3.node[1].dir == [Dirent(1, "."), Dirent(1, ".."), NoEntry];
    NamesZero(s3.node[1].dir, 3);
    CountZero(s3.node, 3);
  }

  lemma FreshImage(s: State)
    requires |s.node| == 4 == |s.pending| == |s.at| && (forall i :: 0 <= i < 4 ==> s.pending[i] == 0)
    requires s.node[1] == Node(T_DIR, 1, [Dirent(1, "."), Dirent(1, "..")])
    requires s.node[0] == s.node[2] == s.node[3] == FreeNode
    ensures Inv(s)
  {
    forall i {:trigger AtCount(i)} | AtCount(i) && 0 <= i < 4 ensures CountOk(s, i) {
      var free := [FreeNode, FreeNode, FreeNode, FreeNode];
      assert s.node == free[1 := s.node[1]];
      CountZero(free, i);
      CountUpdate(free, 1, s.node[1], i);
      DotsNames(1, 1, i);
    }
  }
}
