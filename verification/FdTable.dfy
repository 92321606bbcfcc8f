/** kernel/fs/vfs_fdt.c: the system-wide table of open files, kept in the hash table. */
module FdTable {
  import opened Machine
  import H = HashTable

  type Address = u64

  /** vnode is an address, 0 until vfs_open fills it in. */
  datatype FileDescriptor = FileDescriptor(fd: i32, pid: i32, flags: int, off: int, vnode: Address)

  /** vfs_fdt_combo_to_hashkey. The shift leaves the low word free, so the or is a sum. */
  function Key(fd: i32, pid: i32): u64 {
    Wrap32(fd) * WORD + Wrap32(pid)
  }

  /** Distinct pairs never share a key. */
  lemma KeyInjective(fd: i32, pid: i32, fd': i32, pid': i32)
    ensures Key(fd, pid) == Key(fd', pid') <==> fd == fd' && pid == pid'
  {
    DivModUnique(Wrap32(fd) * WORD + Wrap32(pid), WORD, Wrap32(fd), Wrap32(pid));
    DivModUnique(Wrap32(fd') * WORD + Wrap32(pid'), WORD, Wrap32(fd'), Wrap32(pid'));
  }

  /** The upper word of a key is the process's number, the lower one its pid. */
  lemma KeyParts(fd: i32, pid: i32)
    ensures Key(fd, pid) / WORD == Wrap32(fd) && Key(fd, pid) % WORD == Wrap32(pid)
  {
    DivModUnique(Wrap32(fd) * WORD + Wrap32(pid), WORD, Wrap32(fd), Wrap32(pid));
  }

  /** The map refers to every allocated descriptor, by its own key, and to nothing else. */
  ghost predicate Matches(contents: map<u64, u64>, sysfds: map<Address, FileDescriptor>) {
    && (forall k :: k in contents ==>
          var a := contents[k]; a in sysfds && Key(sysfds[a].fd, sysfds[a].pid) == k)
    && (forall a :: a in sysfds ==>
          var k := Key(sysfds[a].fd, sysfds[a].pid); k in contents && contents[k] == a)
  }

  /** A new descriptor under its key keeps that up exactly when the key was free. */
  lemma EnteredMatches(contents: map<u64, u64>, sysfds: map<Address, FileDescriptor>, a: Address, d: FileDescriptor)
    requires Matches(contents, sysfds) && a !in sysfds
    ensures Matches(contents[Key(d.fd, d.pid) := a], sysfds[a := d]) <==> Key(d.fd, d.pid) !in contents
  {
    hide Key;
    var k := Key(d.fd, d.pid);
    if k in contents {
      var a' := contents[k];
      assert sysfds[a := d][a'] == sysfds[a'] && Key(sysfds[a'].fd, sysfds[a'].pid) == k;
    }
  }

  class DescriptorTable {
    const table: H.HashTable
    /** The allocated descriptors by address. */
    var sysfds: map<Address, FileDescriptor>

    /** The hash table holds exactly the allocated descriptors. */
    ghost predicate Valid()
      reads this, table
    {
      table.Valid() && 0 !in sysfds && Matches(table.contents, sysfds)
    }

    /** The pair is an open descriptor. */
    ghost predicate IsOpen(fd: i32, pid: i32)
      reads table
    {
      Key(fd, pid) in table.contents
    }

    constructor (table: H.HashTable)
      requires table.Valid() && table.contents == map[]
      ensures Valid() && sysfds == map[] && this.table == table
    {
      this.table := table;
      sysfds := map[];
    }

    /** vfs_fdt_new_sysfd; 0 stands for NULL. kcalloc answers `address`, krealloc `granted`. A pair that is
        open already is overwritten in the hash table, and then its old descriptor cannot be found any more. */
    method NewSysfd(fd: i32, pid: i32, address: Address, granted: bool) returns (sysfd: Address)
      requires Valid() && address !in sysfds
      modifies this, table
      ensures table.Valid() && (Valid() <==> sysfd == 0 || !old(IsOpen(fd, pid)))
      ensures sysfd == if table.chew(Key(fd, pid)).st >= 0 && (granted || old(IsOpen(fd, pid))) then address else 0
      ensures sysfds == if sysfd == 0 then old(sysfds) else old(sysfds)[sysfd := FileDescriptor(fd, pid, 0, 0, 0)]
      ensures forall fd', pid' :: IsOpen(fd', pid') <==> old(IsOpen(fd', pid')) || (sysfd != 0 && fd' == fd && pid' == pid)
      ensures sysfd != 0 ==>
                table.contents == old(table.contents)[Key(fd, pid) := sysfd] &&
                table.SlotSize(Key(fd, pid)) == old(table.SlotSize(Key(fd, pid))) + if old(IsOpen(fd, pid)) then 0 else 1
    {
      hide Key, H.Represents, Matches, H.HashTable.SlotSize;
      if address == 0 {
        return 0;
      }
      var st := table.Insert(Key(fd, pid), address, granted);
      if st < 0 {
        return 0;
      }
      EnteredMatches(old(table.contents), sysfds, address, FileDescriptor(fd, pid, 0, 0, 0));
      sysfds := sysfds[address := FileDescriptor(fd, pid, 0, 0, 0)];
      forall fd', pid' ensures Key(fd', pid') == Key(fd, pid) <==> fd' == fd && pid' == pid {
        KeyInjective(fd', pid', fd, pid);
      }
      return address;
    }

    /** vfs_fdt_get_sysfd */
    method GetSysfd(fd: i32, pid: i32) returns (sysfd: Address)
      requires Valid()
      ensures sysfd != 0 <==> IsOpen(fd, pid)
      ensures sysfd != 0 ==> sysfd in sysfds && sysfds[sysfd].fd == fd && sysfds[sysfd].pid == pid
    {
      var found := table.Find(Key(fd, pid));
      match found
      case Error(_) =>
        return 0;
      case Value(a) =>
        KeyInjective(sysfds[a].fd, sysfds[a].pid, fd, pid);
        return a;
    }

    /** vfs_open fills in the descriptor it has just created. */
    method Fill(sysfd: Address, flags: int, vnode: Address)
      requires Valid() && sysfd in sysfds
      modifies this
      ensures Valid()
      ensures sysfds == old(sysfds)[sysfd := old(sysfds)[sysfd].(flags := flags, vnode := vnode)]
    {
      hide Key;
      sysfds := sysfds[sysfd := sysfds[sysfd].(flags := flags, vnode := vnode)];
    }

    /** vfs_fdt_free_sysfd */
    method FreeSysfd(sysfd: Address, granted: bool) returns (panicked: bool)
      requires Valid() && sysfd in sysfds
      modifies this, table
      ensures panicked <==>
                !granted && old(table.SlotSize(Key(sysfds[sysfd].fd, sysfds[sysfd].pid))) > 1
      ensures !panicked ==> Valid() && sysfds == old(sysfds) - {sysfd}
      ensures !panicked ==> forall fd, pid ::
                IsOpen(fd, pid) <==> old(IsOpen(fd, pid)) && !(fd == old(sysfds)[sysfd].fd && pid == old(sysfds)[sysfd].pid)
    {
      hide Key, H.Represents;
      var d := sysfds[sysfd];
      H.StoredKeysHash(table, Key(d.fd, d.pid));
      var r := table.Remove(Key(d.fd, d.pid), granted);
      if r == H.Panic {
        return true;
      }
      sysfds := sysfds - {sysfd};
      forall fd, pid ensures Key(fd, pid) == Key(d.fd, d.pid) <==> fd == d.fd && pid == d.pid {
        KeyInjective(fd, pid, d.fd, d.pid);
      }
      panicked := false;
    }
  }
}
