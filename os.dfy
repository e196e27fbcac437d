/**
 * The part of the operating system the installer talks to, reduced to what
 * the program can observe: whether the mount point directory exists, how many
 * file systems are stacked on it, which file descriptors are open, and a log
 * of every system call together with what it returned.
 *
 * Outcomes the model cannot derive from this state (a permission problem, a
 * device that is not a valid FAT file system, an I/O error) are handed to each
 * call as a `granted` verdict by the caller.
 */
module Os {
  /** The fixed directory on which each keyboard half is mounted. */
  const MOUNT_POINT: string := "/tmp/glove80"

  /** The `errno` values that matter to the program. */
  datatype Errno = NoError | AlreadyExists | Denied

  datatype OpenMode = ReadOnly | WriteCreateTruncate

  /** Mount options: no access-time updates, no set-user-ID, no device nodes. */
  datatype MountFlag = NoAtime | NoSuid | NoDev

  /** One system call as the kernel saw it, with what it returned. */
  datatype Syscall =
    | Mkdir(path: string, errno: Errno)
    | Mount(source: string, target: string, fstype: string, flags: set<MountFlag>, ok: bool)
    | Open(path: string, mode: OpenMode, result: int)
    | Fstat(fd: nat)
    | Sendfile(outFd: nat, inFd: nat, ok: bool)
    | Fsync(fd: nat)
    | Close(fd: nat)
    | Umount(target: string, ok: bool)

  /**
   * Observable kernel state for the mount point: whether the directory
   * exists, the depth of the mount stack on it, the open descriptors and the
   * next descriptor number to hand out.
   */
  datatype State = State(dirExists: bool, mounts: nat, open: set<nat>, nextFd: nat)

  /** The effect of one logged call on the kernel state. */
  function Apply(s: State, c: Syscall): State {
    match c
    case Mkdir(_, errno) => if errno == NoError then s.(dirExists := true) else s
    case Mount(_, _, _, _, ok) => if ok then s.(mounts := s.mounts + 1) else s
    case Open(_, _, r) => if r >= 0 then s.(open := s.open + {r as nat}, nextFd := r as nat + 1) else s
    case Close(fd) => s.(open := s.open - {fd})
    case Umount(_, ok) => if ok && s.mounts > 0 then s.(mounts := s.mounts - 1) else s
    case Fstat(_) => s
    case Sendfile(_, _, _) => s
    case Fsync(_) => s
  }

  /** Replays a sequence of logged calls from state `s`. */
  function ApplyAll(s: State, cs: seq<Syscall>): State
    decreases |cs|
  {
    if cs == [] then s else ApplyAll(Apply(s, cs[0]), cs[1..])
  }

  /** Replaying two logs one after the other is replaying their concatenation. */
  lemma {:induction false} ApplyAllAppend(s: State, a: seq<Syscall>, b: seq<Syscall>)
    ensures ApplyAll(s, a + b) == ApplyAll(ApplyAll(s, a), b)
    decreases |a|
  {
    if a == [] {
      assert a + b == b;
    } else {
      assert (a + b)[0] == a[0];
      assert (a + b)[1..] == a[1..] + b;
      ApplyAllAppend(Apply(s, a[0]), a[1..], b);
    }
  }

  /** Replaying one more call is applying it to the replayed state. */
  lemma ApplyAllSnoc(s: State, cs: seq<Syscall>, c: Syscall)
    ensures ApplyAll(s, cs + [c]) == Apply(ApplyAll(s, cs), c)
  {
    ApplyAllAppend(s, cs, [c]);
    assert [c][1..] == [];
  }

  /** Replaying `cs` walks through the states `ts`, one call at a time. */
  lemma {:induction false} ReplayThrough(s: State, cs: seq<Syscall>, ts: seq<State>)
    requires |ts| == |cs| + 1 && ts[0] == s
    requires forall i :: 0 <= i < |cs| ==> ts[i + 1] == Apply(ts[i], cs[i])
    ensures ApplyAll(s, cs) == ts[|cs|]
    decreases |cs|
  {
    if cs != [] {
      ReplayThrough(Apply(s, cs[0]), cs[1..], ts[1..]);
    }
  }

  /**
   * The kernel as the program sees it. Its state is at all times the replay
   * of its call log from the state it booted in.
   */
  class Kernel {
    var dirExists: bool
    var mounts: nat
    var open: set<nat>
    var nextFd: nat
    ghost var log: seq<Syscall>
    ghost const boot: State

    function Snapshot(): State
      reads this
    {
      State(dirExists, mounts, open, nextFd)
    }

    ghost predicate Valid()
      reads this
    {
      && (forall fd :: fd in open ==> fd < nextFd)
      && Snapshot() == ApplyAll(boot, log)
    }

    /** A kernel on which nothing is mounted and nothing is open yet. */
    constructor (dirExists: bool)
      ensures Valid()
      ensures Snapshot() == State(dirExists, 0, {}, 0) && log == []
    {
      this.dirExists := dirExists;
      mounts, open, nextFd, log := 0, {}, 0, [];
      boot := State(dirExists, 0, {}, 0);
    }

    /** Appends `c` to the log once the state already reflects it. */
    ghost method Record(c: Syscall)
      requires Snapshot() == Apply(ApplyAll(boot, log), c)
      requires forall fd :: fd in open ==> fd < nextFd
      modifies this`log
      ensures Valid() && log == old(log) + [c]
    {
      ApplyAllSnoc(boot, log, c);
      log := log + [c];
    }

    /** mkdir(2): fails with EEXIST when the directory is already there. */
    method Mkdir(path: string, granted: bool) returns (r: int, errno: Errno)
      requires Valid() && path == MOUNT_POINT
      modifies this
      ensures Valid()
      ensures errno == (if old(dirExists) then AlreadyExists else if granted then NoError else Denied)
      ensures r == (if errno == NoError then 0 else -1)
      ensures log == old(log) + [Syscall.Mkdir(path, errno)]
      ensures Snapshot() == Apply(old(Snapshot()), Syscall.Mkdir(path, errno))
    {
      if dirExists {
        r, errno := -1, AlreadyExists;
      } else if granted {
        r, errno := 0, NoError;
        dirExists := true;
      } else {
        r, errno := -1, Denied;
      }
      Record(Syscall.Mkdir(path, errno));
    }

    /** mount(2) of `source` on the mount point. */
    method Mount(source: string, target: string, fstype: string, flags: set<MountFlag>, granted: bool)
      returns (r: int)
      requires Valid() && target == MOUNT_POINT
      modifies this
      ensures Valid()
      ensures r == (if granted then 0 else -1)
      ensures log == old(log) + [Syscall.Mount(source, target, fstype, flags, granted)]
      ensures Snapshot() == Apply(old(Snapshot()), Syscall.Mount(source, target, fstype, flags, granted))
    {
      if granted {
        mounts := mounts + 1;
        r := 0;
      } else {
        r := -1;
      }
      Record(Syscall.Mount(source, target, fstype, flags, granted));
    }

    /** umount(2): only succeeds when something is mounted on the target. */
    method Umount(target: string, granted: bool) returns (r: int)
      requires Valid() && target == MOUNT_POINT
      modifies this
      ensures Valid()
      ensures r == (if granted && old(mounts) > 0 then 0 else -1)
      ensures log == old(log) + [Syscall.Umount(target, r == 0)]
      ensures Snapshot() == Apply(old(Snapshot()), Syscall.Umount(target, r == 0))
    {
      if granted && mounts > 0 {
        mounts := mounts - 1;
        r := 0;
      } else {
        r := -1;
      }
      Record(Syscall.Umount(target, r == 0));
    }

    /** open(2): a granted open returns a descriptor that was not open before. */
    method Open(path: string, mode: OpenMode, granted: bool) returns (fd: int)
      requires Valid()
      modifies this
      ensures Valid()
      ensures fd == (if granted then old(nextFd) else -1)
      ensures fd >= 0 ==> fd !in old(open)
      ensures log == old(log) + [Syscall.Open(path, mode, fd)]
      ensures Snapshot() == Apply(old(Snapshot()), Syscall.Open(path, mode, fd))
    {
      if granted {
        fd := nextFd;
        open := open + {nextFd};
        nextFd := nextFd + 1;
      } else {
        fd := -1;
      }
      Record(Syscall.Open(path, mode, fd));
    }

    /** fstat(2); the program ignores what it returns. */
    method Fstat(fd: nat)
      requires Valid()
      modifies this
      ensures Valid()
      ensures log == old(log) + [Syscall.Fstat(fd)] && Snapshot() == old(Snapshot())
    {
      Record(Syscall.Fstat(fd));
    }

    /** sendfile(2): a negative result reports failure; byte counts are not modelled. */
    method Sendfile(outFd: nat, inFd: nat, granted: bool) returns (r: int)
      requires Valid()
      modifies this
      ensures Valid()
      ensures r < 0 <==> !granted
      ensures log == old(log) + [Syscall.Sendfile(outFd, inFd, granted)]
      ensures Snapshot() == old(Snapshot())
    {
      r := if granted then 0 else -1;
      Record(Syscall.Sendfile(outFd, inFd, granted));
    }

    /** fsync(2); the program ignores what it returns. */
    method Fsync(fd: nat)
      requires Valid()
      modifies this
      ensures Valid()
      ensures log == old(log) + [Syscall.Fsync(fd)] && Snapshot() == old(Snapshot())
    {
      Record(Syscall.Fsync(fd));
    }

    /** close(2); the program ignores what it returns. */
    method Close(fd: nat)
      requires Valid()
      modifies this
      ensures Valid()
      ensures log == old(log) + [Syscall.Close(fd)]
      ensures Snapshot() == Apply(old(Snapshot()), Syscall.Close(fd))
    {
      open := open - {fd};
      Record(Syscall.Close(fd));
    }
  }
}
