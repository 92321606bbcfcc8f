/** kernel/fs/vfs.c and vnode.c: opening, closing and removing files. */
module Vfs {
  import opened Machine
  import opened FdTable
  import P = ProcFds

  const O_CREAT: bv32 := 0x8

  datatype VirtualNode = VirtualNode(isDir: bool, refCount: nat, pendingRm: bool)

  /** What fs_lookup_vnode answers: a cached node, or a negative status. */
  datatype Lookup = Node(vnode: Address) | Failed(st: int)

  /** What the driver and the allocator would answer during one call. */
  datatype Env = Env(
    lookup: Lookup,      // fs_lookup_vnode
    made: Lookup,        // fs_mkfile, for a file that was missing
    fdsGranted: bool,    // krealloc of the process's numbers
    sysfd: Address,      // kcalloc of the descriptor, 0 for NULL
    slotGranted: bool,   // krealloc of the hash table slot
    openStatus: int,     // ops->open
    shrinkGranted: bool, // krealloc that makes the slot smaller
    removed: int)        // driver->rmnode

  // ---------------------------------------------------------------- counting descriptors

  ghost function Pointing(sysfds: map<Address, FileDescriptor>, v: Address): set<Address> {
    set a | a in sysfds && sysfds[a].vnode == v
  }

  /** Every node counts the descriptors that point to it, and every pointer leads to a node. */
  ghost predicate Counted(sysfds: map<Address, FileDescriptor>, vnodes: map<Address, VirtualNode>) {
    && (forall a :: a in sysfds ==> sysfds[a].vnode in vnodes)
    && (forall v :: v in vnodes ==> vnodes[v].refCount == |Pointing(sysfds, v)|)
  }

  /** A node that nobody points to any more and that is to be removed was refused by its driver. */
  ghost predicate PendingRefused(vnodes: map<Address, VirtualNode>, refused: set<Address>) {
    forall v :: v in vnodes && vnodes[v].pendingRm && vnodes[v].refCount == 0 ==> v in refused
  }

  lemma PointingOpened(sysfds: map<Address, FileDescriptor>, a: Address, d: FileDescriptor, v: Address)
    requires a !in sysfds
    ensures Pointing(sysfds[a := d], v) == if v == d.vnode then Pointing(sysfds, v) + {a} else Pointing(sysfds, v)
    ensures a !in Pointing(sysfds, v)
  {
  }

  lemma PointingClosed(sysfds: map<Address, FileDescriptor>, a: Address, v: Address)
    requires a in sysfds
    ensures Pointing(sysfds - {a}, v) == Pointing(sysfds, v) - {a}
    ensures a in Pointing(sysfds, v) <==> v == sysfds[a].vnode
  {
  }

  lemma CountOpened(sysfds: map<Address, FileDescriptor>, vnodes: map<Address, VirtualNode>, a: Address, d: FileDescriptor)
    requires Counted(sysfds, vnodes) && a !in sysfds && d.vnode in vnodes
    ensures Counted(sysfds[a := d], vnodes[d.vnode := vnodes[d.vnode].(refCount := vnodes[d.vnode].refCount + 1)])
  {
    hide Pointing;
    forall v ensures |Pointing(sysfds[a := d], v)| == |Pointing(sysfds, v)| + if v == d.vnode then 1 else 0 {
      PointingOpened(sysfds, a, d, v);
    }
  }

  lemma CountClosed(sysfds: map<Address, FileDescriptor>, vnodes: map<Address, VirtualNode>, a: Address)
    requires Counted(sysfds, vnodes) && a in sysfds
    ensures sysfds[a].vnode in vnodes && vnodes[sysfds[a].vnode].refCount > 0
    ensures vnodes[sysfds[a].vnode].refCount == 1 <==> Pointing(sysfds, sysfds[a].vnode) == {a}
    ensures var v := sysfds[a].vnode;
            Counted(sysfds - {a}, vnodes[v := vnodes[v].(refCount := vnodes[v].refCount - 1)])
  {
    hide Pointing;
    forall v ensures |Pointing(sysfds - {a}, v)| == |Pointing(sysfds, v)| - if v == sysfds[a].vnode then 1 else 0 {
      PointingClosed(sysfds, a, v);
    }
    PointingClosed(sysfds, a, sysfds[a].vnode);
    var all := Pointing(sysfds, sysfds[a].vnode);
    assert |all - {a}| == |all| - 1;
    assert |all - {a}| == 0 ==> all - {a} == {};
  }

  /** A node nobody points to can go. */
  lemma CountRemoved(sysfds: map<Address, FileDescriptor>, vnodes: map<Address, VirtualNode>, v: Address)
    requires Counted(sysfds, vnodes) && v in vnodes && vnodes[v].refCount == 0
    ensures Counted(sysfds, vnodes - {v}) && Pointing(sysfds, v) == {}
  {
    assert Pointing(sysfds, v) == {};
    assert forall a :: a in sysfds && sysfds[a].vnode == v ==> a in Pointing(sysfds, v);
  }

  /** One descriptor less points to v: the node is handed to rmnode exactly when none is left and its
      removal is pending, and then goes unless the driver refuses. */
  ghost predicate Released(vnodes: map<Address, VirtualNode>, v: Address, removed: int,
                           vnodes': map<Address, VirtualNode>, handed: seq<Address>, handed': seq<Address>)
  {
    && v in vnodes && vnodes[v].refCount > 0
    && var node := vnodes[v].(refCount := vnodes[v].refCount - 1);
    var last := node.refCount == 0 && node.pendingRm;
    && handed' == (if last then handed + [v] else handed)
    && vnodes' == if last && removed == 0 then vnodes - {v} else vnodes[v := node]
  }

  lemma ReleasedCounts(sysfds: map<Address, FileDescriptor>, vnodes: map<Address, VirtualNode>, a: Address,
                       removed: int, vnodes': map<Address, VirtualNode>, handed: seq<Address>, handed': seq<Address>)
    requires Counted(sysfds, vnodes) && a in sysfds
    requires Released(vnodes, sysfds[a].vnode, removed, vnodes', handed, handed')
    ensures Counted(sysfds - {a}, vnodes')
    ensures handed' == handed + if Pointing(sysfds, sysfds[a].vnode) == {a} && vnodes[sysfds[a].vnode].pendingRm then [sysfds[a].vnode] else []
    ensures sysfds[a].vnode in vnodes' <==> handed' == handed || removed != 0
    ensures forall u :: u in vnodes && u != sysfds[a].vnode ==> u in vnodes' && vnodes'[u] == vnodes[u]
  {
    hide Counted, Pointing;
    CountClosed(sysfds, vnodes, a);
    var v := sysfds[a].vnode;
    if handed' != handed && removed == 0 {
      var vnodes'' := vnodes[v := vnodes[v].(refCount := 0)];
      CountRemoved(sysfds - {a}, vnodes'', v);
      assert vnodes'' - {v} == vnodes - {v};
    }
  }

  /** A new node is not pointed to. */
  lemma CountMade(sysfds: map<Address, FileDescriptor>, vnodes: map<Address, VirtualNode>, v: Address, node: VirtualNode)
    requires Counted(sysfds, vnodes) && v !in vnodes && node.refCount == 0
    ensures Counted(sysfds, vnodes[v := node])
  {
    assert Pointing(sysfds, v) == {};
  }

  // ---------------------------------------------------------------- runs

  datatype Files = Files(sysfds: map<Address, FileDescriptor>, vnodes: map<Address, VirtualNode>, handed: seq<Address>)

  datatype Event =
    | Opened(a: Address, d: FileDescriptor)
    | Closed(a: Address, removed: int)
    | Unlinked(v: Address, removed: int)
    | Made(v: Address, isDir: bool)

  ghost predicate Happens(s: Files, s': Files, e: Event) {
    match e
    case Opened(a, d) =>
      && a !in s.sysfds && d.vnode in s.vnodes && s'.sysfds == s.sysfds[a := d] && s'.handed == s.handed
      && s'.vnodes == s.vnodes[d.vnode := s.vnodes[d.vnode].(refCount := s.vnodes[d.vnode].refCount + 1)]
    case Closed(a, removed) =>
      && a in s.sysfds && s'.sysfds == s.sysfds - {a}
      && Released(s.vnodes, s.sysfds[a].vnode, removed, s'.vnodes, s.handed, s'.handed)
    case Unlinked(v, removed) =>
      && v in s.vnodes && !s.vnodes[v].isDir && s'.sysfds == s.sysfds
      && var last := Pointing(s.sysfds, v) == {};
         s'.handed == (if last then s.handed + [v] else s.handed) &&
         s'.vnodes == if last && removed == 0 then s.vnodes - {v} else s.vnodes[v := s.vnodes[v].(pendingRm := true)]
    case Made(v, isDir) =>
      v !in s.vnodes && s' == s.(vnodes := s.vnodes[v := VirtualNode(isDir, 0, false)])
  }

  /** Somebody has the node open, and its removal is pending. */
  ghost predicate AwaitsLastClose(s: Files, v: Address) {
    v in s.vnodes && s.vnodes[v].pendingRm && Pointing(s.sysfds, v) != {}
  }

  lemma EventCounts(s: Files, s': Files, e: Event)
    requires Counted(s.sysfds, s.vnodes) && Happens(s, s', e)
    ensures Counted(s'.sysfds, s'.vnodes) && s.handed <= s'.handed
  {
    hide Counted, Pointing;
    match e
    case Opened(a, d) => CountOpened(s.sysfds, s.vnodes, a, d);
    case Closed(a, removed) => ReleasedCounts(s.sysfds, s.vnodes, a, removed, s'.vnodes, s.handed, s'.handed);
    case Unlinked(v, removed) => CountUnlinked(s, s', v, removed);
    case Made(v, isDir) => CountMade(s.sysfds, s.vnodes, v, VirtualNode(isDir, 0, false));
  }

  lemma CountUnlinked(s: Files, s': Files, v: Address, removed: int)
    requires Counted(s.sysfds, s.vnodes) && Happens(s, s', Unlinked(v, removed))
    ensures Counted(s'.sysfds, s'.vnodes)
  {
    hide Pointing;
    if s'.handed != s.handed { CountRemoved(s.sysfds, s.vnodes, v); }
  }

  /** An earlier close, or anything else, does not cancel a pending removal: the node goes on waiting, or it
      is handed to rmnode. */
  lemma EventAwaits(s: Files, s': Files, e: Event, v: Address)
    requires Counted(s.sysfds, s.vnodes) && Happens(s, s', e) && AwaitsLastClose(s, v)
    ensures s.handed <= s'.handed
    ensures if v in s'.handed[|s.handed|..] then e.Closed? && Pointing(s'.sysfds, v) == {} else AwaitsLastClose(s', v)
  {
    hide Counted;
    match e
    case Opened(a, d) => PointingOpened(s.sysfds, a, d, v);
    case Closed(a, removed) =>
      PointingClosed(s.sysfds, a, v);
      ReleasedCounts(s.sysfds, s.vnodes, a, removed, s'.vnodes, s.handed, s'.handed);
    case Unlinked(_, _) =>
    case Made(_, _) =>
  }

  ghost predicate IsRun(run: seq<Files>, events: seq<Event>) {
    |run| == |events| + 1 && forall k :: 0 <= k < |events| ==> Happens(run[k], run[k + 1], events[k])
  }

  /** Over any run, a file whose removal is pending is handed to rmnode by the time nobody has it open. */
  lemma {:induction false} PendingIsHanded(run: seq<Files>, events: seq<Event>, n: nat, v: Address)
    requires IsRun(run, events) && n < |run| && Counted(run[0].sysfds, run[0].vnodes) && AwaitsLastClose(run[0], v)
    ensures Counted(run[n].sysfds, run[n].vnodes) && run[0].handed <= run[n].handed
    ensures v in run[n].handed[|run[0].handed|..] || AwaitsLastClose(run[n], v)
  {
    hide Counted, AwaitsLastClose, Happens;
    if n > 0 {
      PendingIsHanded(run, events, n - 1, v);
      var s, s' := run[n - 1], run[n];
      EventCounts(s, s', events[n - 1]);
      if v !in s.handed[|run[0].handed|..] {
        EventAwaits(s, s', events[n - 1], v);
      }
      TailGrows(run[0].handed, s.handed, s'.handed, v);
    }
  }

  lemma TailGrows(a: seq<Address>, b: seq<Address>, c: seq<Address>, v: Address)
    requires a <= b <= c
    ensures v in c[|a|..] <==> v in b[|a|..] || v in c[|b|..]
  {
    assert c == b + c[|b|..];
    assert c[|a|..] == b[|a|..] + c[|b|..];
  }

  class Vfs {
    const fdt: DescriptorTable
    /** The nodes that exist, by address. */
    var vnodes: map<Address, VirtualNode>
    /** The nodes handed to rmnode so far, in order, and those it refused. */
    ghost var handed: seq<Address>
    ghost var refused: set<Address>
    /** The running processes, and every pid there ever was. */
    ghost var procs: set<P.Process>
    ghost var usedPids: set<i32>

    ghost predicate Valid()
      reads this, fdt, fdt.table, procs
    {
      && fdt.Valid() && Counted(fdt.sysfds, vnodes) && 0 !in vnodes
      && PendingRefused(vnodes, refused) && ProcessesOk()
    }

    /** Processes have their own pids and agree with the table, and every descriptor has an owner. */
    ghost predicate ProcessesOk()
      reads this`procs, this`usedPids, fdt.table, procs
    {
      && (forall p :: p in procs ==> p.Valid() && p.pid in usedPids && Agrees(p))
      && (forall p, q :: p in procs && q in procs && p.pid == q.pid ==> p == q)
      && (forall fd, pid :: fdt.IsOpen(fd, pid) ==> pid in usedPids)
    }

    ghost function Now(): Files
      reads this, fdt
    {
      Files(fdt.sysfds, vnodes, handed)
    }

    /** The process holds exactly the numbers of its descriptors. */
    ghost predicate Agrees(p: P.Process)
      reads fdt.table, p
    {
      forall fd: i32 :: p.Holds(fd) <==> fdt.IsOpen(fd, p.pid)
    }

    constructor (fdt: DescriptorTable, vnodes: map<Address, VirtualNode>)
      requires fdt.Valid() && fdt.sysfds == map[] && 0 !in vnodes
      requires forall v :: v in vnodes ==> vnodes[v].refCount == 0 && !vnodes[v].pendingRm
      ensures Valid() && this.fdt == fdt && this.vnodes == vnodes && handed == [] && procs == {}
    {
      this.fdt := fdt;
      this.vnodes := vnodes;
      handed, refused, procs, usedPids := [], {}, {}, {};
      new;
      forall v | v in vnodes ensures Pointing(map[], v) == {} {
      }
    }

    /** A process starts under a pid never used before. */
    ghost method Enter(p: P.Process)
      requires Valid() && p.Valid() && p.pid !in usedPids && forall fd :: !p.Holds(fd)
      modifies this`procs, this`usedPids
      ensures Valid() && procs == old(procs) + {p} && usedPids == old(usedPids) + {p.pid}
    {
      hide Counted, DescriptorTable.Valid, Key;
      procs, usedPids := procs + {p}, usedPids + {p.pid};
    }

    /** A process is freed; its descriptors stay open. */
    ghost method Leave(p: P.Process)
      requires Valid()
      modifies this`procs
      ensures Valid() && procs == old(procs) - {p}
    {
      hide Counted, DescriptorTable.Valid, Key, PendingRefused, DescriptorTable.IsOpen;
      procs := procs - {p};
    }

    /** driver->rmnode. The node goes unless the driver refuses. */
    method RmNode(v: Address, removed: int) returns (st: int)
      requires v in vnodes
      modifies this`vnodes, this`handed, this`refused
      ensures st == removed && handed == old(handed) + [v]
      ensures vnodes == if removed == 0 then old(vnodes) - {v} else old(vnodes)
      ensures refused == if removed == 0 then old(refused) else old(refused) + {v}
    {
      handed := handed + [v];
      if removed == 0 {
        vnodes := vnodes - {v};
      } else {
        refused := refused + {v};
      }
      return removed;
    }

    /** vfs_rmfile */
    method RmFile(env: Env) returns (st: int)
      requires Valid() && (env.lookup.Node? ==> env.lookup.vnode in vnodes)
      modifies this`vnodes, this`handed, this`refused
      ensures Valid()
      ensures env.lookup.Failed? ==> st == env.lookup.st && vnodes == old(vnodes) && handed == old(handed)
      ensures env.lookup.Node? ==>
                var v := env.lookup.vnode; var node := old(vnodes)[v];
                if node.isDir then st == -EISDIR && vnodes == old(vnodes) && handed == old(handed)
                else if Pointing(fdt.sysfds, v) == {} then
                  st == env.removed && handed == old(handed) + [v] &&
                  vnodes == if st == 0 then old(vnodes) - {v} else old(vnodes)[v := node.(pendingRm := true)]
                else st == 0 && handed == old(handed) && vnodes == old(vnodes)[v := node.(pendingRm := true)]
      ensures env.lookup.Node? && !old(vnodes)[env.lookup.vnode].isDir ==>
                Happens(old(Now()), Now(), Unlinked(env.lookup.vnode, env.removed))
    {
      hide Pointing, DescriptorTable.Valid, Key;
      if env.lookup.Failed? {
        return env.lookup.st;
      }
      var v := env.lookup.vnode;
      if vnodes[v].isDir {
        return -EISDIR;
      }
      vnodes := vnodes[v := vnodes[v].(pendingRm := true)];
      if vnodes[v].refCount == 0 {
        CountRemoved(fdt.sysfds, vnodes, v);
        st := RmNode(v, env.removed);
        return;
      }
      st := 0;
    }

    /** vnode_decrease_refcount; its assertion holds whenever a descriptor points to the node. */
    method DecreaseRefcount(v: Address, removed: int)
      requires v in vnodes && vnodes[v].refCount > 0 && PendingRefused(vnodes, refused)
      modifies this`vnodes, this`handed, this`refused
      ensures Released(old(vnodes), v, removed, vnodes, old(handed), handed)
      ensures PendingRefused(vnodes, refused)
    {
      vnodes := vnodes[v := vnodes[v].(refCount := vnodes[v].refCount - 1)];
      if vnodes[v].refCount == 0 && vnodes[v].pendingRm {
        ghost var was := vnodes;
        var _ := RmNode(v, removed);
        assert old(vnodes) - {v} == was - {v};
      }
    }

    /** vfs_close. The node is handed to rmnode exactly when its last descriptor closes and its removal
        is pending. Failing to shrink the hash table slot is fatal. */
    method Close(fd: i32, p: P.Process, env: Env) returns (st: int, panicked: bool, ghost a: Address)
      requires Valid() && p in procs
      modifies this`vnodes, this`handed, this`refused, p`fds, fdt, fdt.table
      ensures panicked <==> st == 0 && !env.shrinkGranted && old(fdt.table.SlotSize(Key(fd, p.pid))) > 1
      ensures !panicked ==> Valid()
      ensures st == if fd < 0 then -EINVAL else if !old(fdt.IsOpen(fd, p.pid)) then -ENOENT else 0
      ensures st != 0 ==> !panicked && vnodes == old(vnodes) && fdt.sysfds == old(fdt.sysfds) && handed == old(handed)
      ensures st == 0 && !panicked ==>
                a in old(fdt.sysfds) && old(fdt.sysfds)[a].fd == fd && old(fdt.sysfds)[a].pid == p.pid &&
                fdt.sysfds == old(fdt.sysfds) - {a} &&
                var v := old(fdt.sysfds)[a].vnode;
                Released(old(vnodes), v, env.removed, vnodes, old(handed), handed) &&
                handed == old(handed) + if old(Pointing(fdt.sysfds, v)) == {a} && old(vnodes)[v].pendingRm then [v] else []
      ensures st == 0 && !panicked ==> Happens(old(Now()), Now(), Closed(a, env.removed))
    {
      hide Pointing, Key, Counted, PendingRefused, DescriptorTable.Valid, Released, DescriptorTable.IsOpen;
      panicked, a := false, 0;
      if fd < 0 {
        st := -EINVAL;
        return;
      }
      var sysfd := fdt.GetSysfd(fd, p.pid);
      if sysfd == 0 {
        st := -ENOENT;
        return;
      }
      a := sysfd;
      CountClosed(fdt.sysfds, vnodes, a);
      DecreaseRefcount(fdt.sysfds[sysfd].vnode, env.removed);
      assert Released(old(vnodes), old(fdt.sysfds)[a].vnode, env.removed, vnodes, old(handed), handed);
      panicked := Release(fd, sysfd, p, env);
      if !panicked {
        ReleasedCounts(old(fdt.sysfds), old(vnodes), a, env.removed, vnodes, old(handed), handed);
      }
      st := 0;
    }

    /** The way out of vfs_open for a path that is not cached: O_CREAT makes the file, and the open fails
        all the same. */
    method OpenMissing(flags: bv32, isDir: bool, made: Lookup) returns (st: int)
      requires Valid() && (made.Node? ==> made.vnode !in vnodes && made.vnode != 0)
      modifies this`vnodes
      ensures Valid()
      ensures if flags & O_CREAT != 0 then
                st == (if made.Failed? then made.st else -ENOENT) &&
                vnodes == if made.Failed? then old(vnodes) else old(vnodes)[made.vnode := VirtualNode(isDir, 0, false)]
              else st == -ENOENT && vnodes == old(vnodes)
      ensures flags & O_CREAT != 0 && made.Node? ==> Happens(old(Now()), Now(), Made(made.vnode, isDir))
    {
      hide Pointing, Key, DescriptorTable.Valid, Counted;
      if flags & O_CREAT != 0 {
        if made.Failed? {
          return made.st;
        }
        CountMade(fdt.sysfds, vnodes, made.vnode, VirtualNode(isDir, 0, false));
        vnodes := vnodes[made.vnode := VirtualNode(isDir, 0, false)];
      }
      st := -ENOENT;
    }

    /** vfs_open once the node is found. */
    method OpenNode(v: Address, flags: bv32, p: P.Process, env: Env) returns (r: int, panicked: bool)
      requires Valid() && p in procs && v in vnodes
      requires env.sysfd !in fdt.sysfds && (env.fdsGranted ==> |p.fds| + P.STEP <= P.MOST_FDS)
      modifies this`vnodes, p`fds, p`fdLastFreeIdx, fdt, fdt.table
      ensures panicked <==>
                !old(Refused(p, env)) && env.openStatus < 0 && !env.shrinkGranted &&
                old(fdt.table.SlotSize(Key(p.fdLastFreeIdx, p.pid))) > 0
      ensures !panicked ==> Valid()
      ensures r == if old(Refused(p, env)) then -ENOMEM else if env.openStatus < 0 then env.openStatus else old(p.fdLastFreeIdx)
      ensures r < 0 && !panicked ==> fdt.sysfds == old(fdt.sysfds) && (forall i: i32 :: p.Holds(i) <==> old(p.Holds(i)))
      ensures r < 0 ==> vnodes == old(vnodes)
      ensures r >= 0 ==>
                !panicked && r == old(p.fdLastFreeIdx) <= P.MOST_FDS &&
                !old(fdt.IsOpen(r, p.pid)) && env.sysfd != 0 &&
                fdt.sysfds == old(fdt.sysfds)[env.sysfd := FileDescriptor(r, p.pid, flags as int, 0, v)] &&
                vnodes == old(vnodes)[v := old(vnodes)[v].(refCount := old(vnodes)[v].refCount + 1)]
    {
      hide Pointing, Key, DescriptorTable.Valid, Counted, DescriptorTable.IsOpen, ProcessesOk;
      panicked := false;
      var sysfd;
      r, sysfd := Reserve(p, env);
      if r < 0 {
        return;
      }
      if env.openStatus < 0 {
        panicked := Release(r, sysfd, p, env);
        assert !panicked ==> fdt.sysfds == old(fdt.sysfds);
        r := env.openStatus;
        return;
      }
      fdt.Fill(sysfd, flags as int, v);
      assert fdt.sysfds == old(fdt.sysfds)[sysfd := fdt.sysfds[sysfd]];
      CountOpened(old(fdt.sysfds), vnodes, sysfd, fdt.sysfds[sysfd]);
      vnodes := vnodes[v := vnodes[v].(refCount := vnodes[v].refCount + 1)];
    }

    /** There is no memory for a number of the process, or for its descriptor, or it cannot be hashed. */
    ghost predicate Refused(p: P.Process, env: Env)
      requires p.Valid()
      reads p
    {
      (p.fdLastFreeIdx == |p.fds| && !env.fdsGranted) || env.sysfd == 0 || !env.slotGranted ||
      fdt.table.chew(Key(p.fdLastFreeIdx, p.pid)).st < 0
    }

    /** A number of the process and a descriptor for it, or neither. */
    method Reserve(p: P.Process, env: Env) returns (r: int, sysfd: Address)
      requires fdt.Valid() && ProcessesOk() && p in procs && env.sysfd !in fdt.sysfds
      requires env.fdsGranted ==> |p.fds| + P.STEP <= P.MOST_FDS
      modifies p`fds, p`fdLastFreeIdx, fdt, fdt.table
      ensures fdt.Valid() && ProcessesOk()
      ensures forall i: i32 :: p.Holds(i) <==> old(p.Holds(i)) || (r >= 0 && i == r)
      ensures r == if old(Refused(p, env)) then -ENOMEM else old(p.fdLastFreeIdx)
      ensures r < 0 ==> fdt.sysfds == old(fdt.sysfds)
      ensures r >= 0 ==>
                r == old(p.fdLastFreeIdx) <= P.MOST_FDS && !old(fdt.IsOpen(r, p.pid)) && sysfd == env.sysfd != 0 &&
                fdt.table.SlotSize(Key(r, p.pid)) == old(fdt.table.SlotSize(Key(p.fdLastFreeIdx, p.pid))) + 1 &&
                !old(p.Holds(r)) && fdt.sysfds == old(fdt.sysfds)[sysfd := FileDescriptor(r, p.pid, 0, 0, 0)]
    {
      hide Pointing, Key, DescriptorTable.Valid, Counted, PendingRefused, DescriptorTable.IsOpen;
      sysfd := 0;
      r := p.NewFd(env.fdsGranted);
      if r < 0 {
        return;
      }
      sysfd := fdt.NewSysfd(r, p.pid, env.sysfd, env.slotGranted);
      if sysfd == 0 {
        p.FreeFd(r);
        r := -ENOMEM;
      }
    }

    /** proc_free_fd and vfs_fdt_free_sysfd: what vfs_close does, and vfs_open when the driver refuses. */
    method Release(fd: i32, sysfd: Address, p: P.Process, env: Env) returns (panicked: bool)
      requires fdt.Valid() && ProcessesOk() && p in procs && fd >= 0
      requires sysfd in fdt.sysfds && fdt.sysfds[sysfd].fd == fd && fdt.sysfds[sysfd].pid == p.pid
      modifies p`fds, fdt, fdt.table
      ensures panicked <==> !env.shrinkGranted && old(fdt.table.SlotSize(Key(fd, p.pid))) > 1
      ensures forall i: i32 :: p.Holds(i) <==> old(p.Holds(i)) && i != fd
      ensures !panicked ==> fdt.Valid() && ProcessesOk() && fdt.sysfds == old(fdt.sysfds) - {sysfd}
    {
      hide Key, DescriptorTable.Valid, DescriptorTable.IsOpen;
      p.FreeFd(fd);
      panicked := fdt.FreeSysfd(sysfd, env.shrinkGranted);
    }

    /** vfs_open. On success the process gets a number it never had, bound to the node, and any failure
        leaves the descriptors, the counts and the process's open numbers alone. */
    method Open(flags: bv32, isDir: bool, p: P.Process, env: Env) returns (r: int, panicked: bool)
      requires Valid() && p in procs
      requires env.lookup.Node? ==> env.lookup.vnode in vnodes
      requires env.lookup.Failed? ==> env.lookup.st < 0
      requires env.made.Node? ==> env.made.vnode !in vnodes && env.made.vnode != 0
      requires env.made.Failed? ==> env.made.st < 0
      requires env.sysfd !in fdt.sysfds && (env.fdsGranted ==> |p.fds| + P.STEP <= P.MOST_FDS)
      modifies this`vnodes, p`fds, p`fdLastFreeIdx, fdt, fdt.table
      ensures panicked <==>
                env.lookup.Node? && !old(Refused(p, env)) && env.openStatus < 0 && !env.shrinkGranted &&
                old(fdt.table.SlotSize(Key(p.fdLastFreeIdx, p.pid))) > 0
      ensures !panicked ==> Valid() && handed == old(handed)
      ensures r == match env.lookup
                   case Failed(st) => if st == -ENOENT && flags & O_CREAT != 0 && env.made.Failed? then env.made.st else st
                   case Node(_) =>
                     if old(Refused(p, env)) then -ENOMEM else if env.openStatus < 0 then env.openStatus else old(p.fdLastFreeIdx)
      ensures r < 0 && !panicked ==> fdt.sysfds == old(fdt.sysfds) && (forall i: i32 :: p.Holds(i) <==> old(p.Holds(i)))
      ensures r < 0 ==>
                vnodes == if env.lookup == Failed(-ENOENT) && flags & O_CREAT != 0 && env.made.Node?
                          then old(vnodes)[env.made.vnode := VirtualNode(isDir, 0, false)] else old(vnodes)
      ensures r >= 0 ==>
                !panicked && env.lookup.Node? && r == old(p.fdLastFreeIdx) <= P.MOST_FDS &&
                !old(fdt.IsOpen(r, p.pid)) && env.sysfd != 0 &&
                fdt.sysfds == old(fdt.sysfds)[env.sysfd := FileDescriptor(r, p.pid, flags as int, 0, env.lookup.vnode)] &&
                var v := env.lookup.vnode; vnodes == old(vnodes)[v := old(vnodes)[v].(refCount := old(vnodes)[v].refCount + 1)]
      ensures r >= 0 ==>
                Happens(old(Now()), Now(), Opened(env.sysfd, FileDescriptor(r, p.pid, flags as int, 0, env.lookup.vnode)))
    {
      hide Pointing, Key, DescriptorTable.Valid, Counted, PendingRefused;
      panicked := false;
      match env.lookup
      case Failed(st) =>
        if st == -ENOENT {
          r := OpenMissing(flags, isDir, env.made);
        } else {
          r := st;
        }
      case Node(v) =>
        r, panicked := OpenNode(v, flags, p, env);
    }
  }
}
