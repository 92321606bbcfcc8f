/** kernel/proc/proc.c: the descriptor numbers of one process. */
module ProcFds {
  import opened Machine

  const STEP: nat := 4
  /** A kernel heap of less than 1 GiB cannot hold more flags than this. */
  const MOST_FDS: nat := 0x4000_0000

  class Process {
    const pid: i32
    var fds: seq<bool>
    var fdLastFreeIdx: nat

    /** Numbers at or above the cursor have never been handed out. */
    ghost predicate Valid()
      reads this
    {
      fdLastFreeIdx <= |fds| <= MOST_FDS && forall i :: fdLastFreeIdx <= i < |fds| ==> !fds[i]
    }

    predicate Holds(fd: int)
      reads this
    {
      0 <= fd < |fds| && fds[fd]
    }

    /** proc_init, when its allocation succeeds */
    constructor (pid: i32)
      ensures Valid() && this.pid == pid && forall fd :: !Holds(fd)
    {
      this.pid := pid;
      fds := seq(STEP, _ => false);
      fdLastFreeIdx := 0;
    }

    /** proc_enlarge_fds: room for new numbers and no number in use gained or lost, or -ENOMEM and no
        change. */
    method EnlargeFds(granted: bool) returns (st: int)
      requires granted ==> |fds| + STEP <= MOST_FDS
      modifies this`fds
      ensures st == if granted then 0 else -ENOMEM
      ensures old(fds) <= fds && |fds| == if granted then |old(fds)| + STEP else |old(fds)|
      ensures forall fd :: Holds(fd) <==> old(Holds(fd))
      ensures old(Valid()) ==> Valid() && (granted ==> fdLastFreeIdx < |fds| && !Holds(fdLastFreeIdx))
    {
      if !granted {
        return -ENOMEM;
      }
      fds := fds + seq(STEP, _ => false);
      st := 0;
    }

    /** proc_new_fd: the first free number from the cursor on, which is the cursor itself when no number
        beyond it is in use. -EOVERFLOW is never returned. */
    method NewFd(granted: bool) returns (fd: int)
      requires fdLastFreeIdx <= |fds| <= MOST_FDS && (granted ==> |fds| + STEP <= MOST_FDS)
      modifies this`fds, this`fdLastFreeIdx
      ensures fd == -ENOMEM || old(fdLastFreeIdx) <= fd <= |old(fds)|
      ensures fd == -ENOMEM <==> !granted && forall i :: old(fdLastFreeIdx) <= i < |old(fds)| ==> old(fds)[i]
      ensures fd == -ENOMEM ==> fds == old(fds)
      ensures fd >= 0 ==>
                !old(Holds(fd)) && (forall i :: old(fdLastFreeIdx) <= i < fd ==> old(Holds(i))) &&
                fdLastFreeIdx == fd + 1 && forall i :: Holds(i) <==> old(Holds(i)) || i == fd
      ensures old(Valid()) ==> Valid() && fd == if old(fdLastFreeIdx == |fds|) && !granted then -ENOMEM else old(fdLastFreeIdx)
    {
      var startPoint := fdLastFreeIdx;
      while fdLastFreeIdx < |fds| && fds[fdLastFreeIdx]
        invariant startPoint <= fdLastFreeIdx <= |fds|
        invariant fds == old(fds) && forall i :: startPoint <= i < fdLastFreeIdx ==> fds[i]
        decreases |fds| - fdLastFreeIdx
      {
        fdLastFreeIdx := Wrap32(fdLastFreeIdx + 1);
        if fdLastFreeIdx == startPoint {
          assert false;
        }
      }
      assert startPoint < fdLastFreeIdx ==> fds[startPoint];
      if fdLastFreeIdx == |fds| {
        var st := EnlargeFds(granted);
        if st < 0 {
          return -ENOMEM;
        }
        assert forall i :: |old(fds)| <= i < |fds| ==> !Holds(i) && !fds[i];
      }
      fds := fds[fdLastFreeIdx := true];
      fd := fdLastFreeIdx;
      fdLastFreeIdx := fdLastFreeIdx + 1;
    }

    /** proc_free_fd. The cursor stays, so the number is not handed out again. */
    method FreeFd(fd: i32)
      requires |fds| <= MOST_FDS
      modifies this`fds
      ensures |fds| == |old(fds)| && forall i :: Holds(i) <==> old(Holds(i)) && i != fd
      ensures old(Valid()) ==> Valid()
    {
      if Wrap32(fd) >= |fds| {
        return;
      }
      fds := fds[fd := false];
    }
  }
}
