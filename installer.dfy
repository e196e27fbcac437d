/**
 * The firmware installer: `mountDevice`, `safeInstall` and `install`.
 * Each is a method on the kernel model, proved to issue exactly the calls
 * of a pure `Run` function; the resource discipline (unmount after a
 * successful mount, every descriptor closed) is proved about those functions.
 */
module Installer {
  import opened Os

  /**
   * What the environment answers, during one install, to each call whose
   * outcome the model cannot derive from kernel state.
   */
  datatype Env = Env(
    mkdir: bool,       // mkdir of a missing mount point succeeds
    mount: bool,       // the device mounts as vfat
    openSource: bool,  // the firmware file opens read-only
    openDest: bool,    // update.uf2 can be created on the device
    sendfile: bool,    // the transfer reports no error
    umount: bool)      // the device can be unmounted

  /** The value a step returns (0 or -1) and the system calls it made, in order. */
  datatype Run = Run(code: int, calls: seq<Syscall>)

  /** Size of the `dest_path` buffer that `snprintf` fills. */
  const DEST_PATH_SIZE: nat := 512

  /** Name of the firmware file written onto the device. */
  const DEST_FILE_NAME: string := "/update.uf2"

  /**
   * `snprintf(dest_path, 512, "%s/update.uf2", dest_dir)`: the joined path,
   * silently cut to 511 characters when it does not fit.
   */
  function DestPath(destDir: string): (p: string)
    ensures |p| < DEST_PATH_SIZE
    ensures p <= destDir + DEST_FILE_NAME
    ensures |destDir + DEST_FILE_NAME| < DEST_PATH_SIZE ==> p == destDir + DEST_FILE_NAME
  {
    var full := destDir + DEST_FILE_NAME;
    if |full| < DEST_PATH_SIZE then full else full[..DEST_PATH_SIZE - 1]
  }

  /** With the fixed mount point the destination path is never truncated. */
  lemma DestPathOnMountPoint()
    ensures DestPath(MOUNT_POINT) == "/tmp/glove80/update.uf2"
  {
  }

  /** File system type and options of the mount in `mountDevice`. */
  const MOUNT_FS_TYPE: string := "vfat"
  const MOUNT_FLAGS: set<MountFlag> := {NoAtime, NoSuid, NoDev}

  /** The calls of `mountDevice`: create the mount point (EEXIST tolerated), then mount. */
  function MountRun(devnode: string, env: Env, dirExists: bool): (r: Run)
    ensures r.code == 0 <==> (dirExists || env.mkdir) && env.mount
    ensures r.code == 0 || r.code == -1
    ensures r.calls != [] && r.calls[0].Mkdir? && r.calls[0].path == MOUNT_POINT
    ensures !(dirExists || env.mkdir) ==> r.calls == [Mkdir(MOUNT_POINT, Denied)]
    ensures Mount(devnode, MOUNT_POINT, MOUNT_FS_TYPE, MOUNT_FLAGS, true) in r.calls <==> r.code == 0
    ensures forall c :: c in r.calls && c.Mount? ==>
      c.source == devnode && c.target == MOUNT_POINT &&
      c.fstype == "vfat" && c.flags == {NoAtime, NoSuid, NoDev}
  {
    var errno := if dirExists then AlreadyExists else if env.mkdir then NoError else Denied;
    if errno != NoError && errno != AlreadyExists then
      Run(-1, [Mkdir(MOUNT_POINT, errno)])
    else
      Run(if env.mount then 0 else -1, [Mkdir(MOUNT_POINT, errno), Mount(devnode, MOUNT_POINT, MOUNT_FS_TYPE, MOUNT_FLAGS, env.mount)])
  }

  /**
   * The calls of `safeInstall`: open the source, fstat it, open/truncate the
   * destination, sendfile, fsync, close both. Descriptors are handed out from
   * `fd0` upwards.
   */
  function CopyRun(source: string, destDir: string, env: Env, fd0: nat): (r: Run)
    ensures r.code == 0 <==> env.openSource && env.openDest && env.sendfile
    ensures r.code == 0 || r.code == -1
  {
    var src, dst := fd0, fd0 + 1;
    if !env.openSource then
      Run(-1, [Open(source, ReadOnly, -1)])
    else
      var head := [Open(source, ReadOnly, src), Fstat(src)];
      if !env.openDest then
        Run(-1, head + [Open(DestPath(destDir), WriteCreateTruncate, -1), Close(src)])
      else
        var sent := head + [Open(DestPath(destDir), WriteCreateTruncate, dst), Sendfile(dst, src, env.sendfile)];
        if !env.sendfile then
          Run(-1, sent + [Close(src), Close(dst)])
        else
          Run(0, sent + [Fsync(dst), Close(src), Close(dst)])
  }

  /** The calls of `install`: mount; on success copy and then unmount whatever the copy did. */
  function InstallRun(devnode: string, firmware: string, env: Env, dirExists: bool, fd0: nat): (r: Run)
    ensures r.code == 0 <==>
      (dirExists || env.mkdir) && env.mount && env.openSource && env.openDest && env.sendfile
    ensures r.code == 0 || r.code == -1
  {
    var m := MountRun(devnode, env, dirExists);
    if m.code == -1 then m
    else
      var c := CopyRun(firmware, MOUNT_POINT, env, fd0);
      Run(if c.code == -1 then -1 else 0, m.calls + c.calls + [Umount(MOUNT_POINT, env.umount)])
  }

  /**
   * A copy whose opens and transfer succeed opens the firmware read-only,
   * opens update.uf2 for writing with truncation, sends from one to the
   * other, and flushes the destination before closing it. A failed transfer
   * is not flushed; a failed source open makes no further call.
   */
  lemma CopyTransfersThenFlushes(source: string, destDir: string, env: Env, fd0: nat)
    ensures var cs := CopyRun(source, destDir, env, fd0).calls;
      env.openSource && env.openDest ==>
        && |cs| >= 6
        && cs[0] == Open(source, ReadOnly, fd0)
        && cs[2] == Open(DestPath(destDir), WriteCreateTruncate, fd0 + 1)
        && cs[3] == Sendfile(fd0 + 1, fd0, env.sendfile)
        && (env.sendfile ==> cs[4] == Fsync(fd0 + 1))
        && (forall i :: 0 <= i < |cs| && cs[i] == Close(fd0 + 1) ==> i > 4)
    ensures var cs := CopyRun(source, destDir, env, fd0).calls;
      Fsync(fd0 + 1) in cs <==> env.openSource && env.openDest && env.sendfile
    ensures var cs := CopyRun(source, destDir, env, fd0).calls;
      (exists c :: c in cs && c.Sendfile?) <==> env.openSource && env.openDest
    ensures !env.openSource ==> CopyRun(source, destDir, env, fd0).calls == [Open(source, ReadOnly, -1)]
  {
  }

  /**
   * The firmware is sent while the device is mounted: after the successful
   * vfat mount, the firmware is opened read-only and update.uf2 on the mount
   * point is opened for writing, the one is sent into the other, and the
   * final umount comes after.
   */
  lemma InstallCopiesWhileMounted(devnode: string, firmware: string, env: Env, dirExists: bool, fd0: nat)
    requires MountRun(devnode, env, dirExists).code == 0
    requires env.openSource && env.openDest
    ensures var cs := InstallRun(devnode, firmware, env, dirExists, fd0).calls;
      && |cs| > 6
      && cs[1] == Mount(devnode, MOUNT_POINT, "vfat", {NoAtime, NoSuid, NoDev}, true)
      && cs[2] == Open(firmware, ReadOnly, fd0)
      && cs[4] == Open("/tmp/glove80/update.uf2", WriteCreateTruncate, fd0 + 1)
      && cs[5] == Sendfile(fd0 + 1, fd0, env.sendfile)
      && (env.sendfile ==> cs[6] == Fsync(fd0 + 1))
      && cs[|cs| - 1] == Umount(MOUNT_POINT, env.umount)
      && 5 < |cs| - 1
  {
    var m := MountRun(devnode, env, dirExists).calls;
    var c := CopyRun(firmware, MOUNT_POINT, env, fd0).calls;
    CopyTransfersThenFlushes(firmware, MOUNT_POINT, env, fd0);
    DestPathOnMountPoint();
    assert |m| == 2;
  }

  /** Number of umount calls in a log. */
  function Umounts(cs: seq<Syscall>): nat
    decreases |cs|
  {
    if cs == [] then 0 else (if cs[0].Umount? then 1 else 0) + Umounts(cs[1..])
  }

  lemma {:induction false} UmountsAppend(a: seq<Syscall>, b: seq<Syscall>)
    ensures Umounts(a + b) == Umounts(a) + Umounts(b)
    decreases |a|
  {
    if a == [] {
      assert a + b == b;
    } else {
      assert (a + b)[1..] == a[1..] + b;
      UmountsAppend(a[1..], b);
    }
  }

  /** A copy never unmounts anything. */
  lemma CopyMakesNoUmount(source: string, destDir: string, env: Env, fd0: nat)
    ensures Umounts(CopyRun(source, destDir, env, fd0).calls) == 0
  {
    var cs := CopyRun(source, destDir, env, fd0).calls;
    if !env.openSource {
      assert Umounts(cs) == Umounts(cs[1..]);
    } else {
      var head := [Open(source, ReadOnly, fd0), Fstat(fd0)];
      assert Umounts(head) == 0 by {
        assert Umounts(head) == Umounts(head[1..]) == Umounts(head[2..]);
      }
      var rest := cs[2..];
      assert cs == head + rest;
      UmountsAppend(head, rest);
      NoUmountIn(rest);
    }
  }

  /** A log without umount entries counts none. */
  lemma {:induction false} NoUmountIn(cs: seq<Syscall>)
    requires forall i :: 0 <= i < |cs| ==> !cs[i].Umount?
    ensures Umounts(cs) == 0
    decreases |cs|
  {
    if cs != [] {
      NoUmountIn(cs[1..]);
    }
  }

  /** A failed mount ends the install: nothing is opened, copied or unmounted. */
  lemma MountFailureCopiesNothing(devnode: string, firmware: string, env: Env, dirExists: bool, fd0: nat)
    requires MountRun(devnode, env, dirExists).code != 0
    ensures InstallRun(devnode, firmware, env, dirExists, fd0).code == -1
    ensures forall c :: c in InstallRun(devnode, firmware, env, dirExists, fd0).calls ==>
      !c.Open? && !c.Sendfile? && !c.Umount?
  {
  }

  /**
   * Once the device is mounted, `install` unmounts it exactly once, as its
   * very last call, whether or not the copy succeeded.
   */
  lemma UmountExactlyOnceAfterMount(devnode: string, firmware: string, env: Env, dirExists: bool, fd0: nat)
    requires MountRun(devnode, env, dirExists).code == 0
    ensures var cs := InstallRun(devnode, firmware, env, dirExists, fd0).calls;
      Umounts(cs) == 1 && cs[|cs| - 1] == Umount(MOUNT_POINT, env.umount)
  {
    var m := MountRun(devnode, env, dirExists).calls;
    var c := CopyRun(firmware, MOUNT_POINT, env, fd0).calls;
    var u := [Umount(MOUNT_POINT, env.umount)];
    UmountsAppend(m, c);
    UmountsAppend(m + c, u);
    NoUmountIn(m);
    CopyMakesNoUmount(firmware, MOUNT_POINT, env, fd0);
    assert Umounts(u) == 1 + Umounts(u[1..]);
  }

  /**
   * `safeInstall` closes, on every return path, each descriptor it opened;
   * it touches neither the mount point nor the mount stack.
   */
  lemma CopyRestoresState(s: State, source: string, destDir: string, env: Env)
    requires forall fd :: fd in s.open ==> fd < s.nextFd
    ensures var t := ApplyAll(s, CopyRun(source, destDir, env, s.nextFd).calls);
      t.open == s.open && t.mounts == s.mounts && t.dirExists == s.dirExists && t.nextFd >= s.nextFd
  {
    var src, dst := s.nextFd, s.nextFd + 1;
    var cs := CopyRun(source, destDir, env, s.nextFd).calls;
    var s1 := s.(open := s.open + {src}, nextFd := src + 1);
    var s2 := s1.(open := s1.open + {dst}, nextFd := dst + 1);
    var s3 := s2.(open := s2.open - {src});
    var s4 := s3.(open := s3.open - {dst});
    assert src !in s.open && dst !in s.open;
    if !env.openSource {
      ReplayThrough(s, cs, [s, s]);
    } else if !env.openDest {
      ReplayThrough(s, cs, [s, s1, s1, s1, s1.(open := s1.open - {src})]);
    } else if !env.sendfile {
      ReplayThrough(s, cs, [s, s1, s1, s2, s2, s3, s4]);
    } else {
      ReplayThrough(s, cs, [s, s1, s1, s2, s2, s2, s3, s4]);
    }
  }

  /**
   * What `install` leaves behind: the same descriptors open as before, the
   * mount point created if it could be, and the mount stack as it was, unless
   * the final unmount itself was refused.
   */
  lemma InstallRestoresState(s: State, devnode: string, firmware: string, env: Env)
    requires forall fd :: fd in s.open ==> fd < s.nextFd
    ensures var t := ApplyAll(s, InstallRun(devnode, firmware, env, s.dirExists, s.nextFd).calls);
      && t.open == s.open
      && t.dirExists == (s.dirExists || env.mkdir)
      && t.mounts == s.mounts + (if MountRun(devnode, env, s.dirExists).code == 0 && !env.umount then 1 else 0)
      && t.nextFd >= s.nextFd
  {
    var m := MountRun(devnode, env, s.dirExists);
    var sm := if s.dirExists || !env.mkdir then s else s.(dirExists := true);
    if m.code != 0 {
      if (s.dirExists || env.mkdir) {
        ReplayThrough(s, m.calls, [s, sm, sm]);
      } else {
        ReplayThrough(s, m.calls, [s, sm]);
      }
    } else {
      var s1 := sm.(mounts := s.mounts + 1);
      ReplayThrough(s, m.calls, [s, sm, s1]);
      var c := CopyRun(firmware, MOUNT_POINT, env, s.nextFd);
      CopyRestoresState(s1, firmware, MOUNT_POINT, env);
      var s2 := ApplyAll(s1, c.calls);
      var u := [Umount(MOUNT_POINT, env.umount)];
      ReplayThrough(s2, u, [s2, Apply(s2, u[0])]);
      ApplyAllAppend(s, m.calls, c.calls);
      ApplyAllAppend(s, m.calls + c.calls, u);
    }
  }

  /** `mountDevice`: ensure the mount point exists, then mount `devnode` on it. */
  method MountDevice(k: Kernel, devnode: string, env: Env) returns (r: int)
    requires k.Valid()
    modifies k
    ensures k.Valid()
    ensures var run := MountRun(devnode, env, old(k.dirExists));
      r == run.code && k.log == old(k.log) + run.calls
    ensures k.mounts == old(k.mounts) + (if r == 0 then 1 else 0)
    ensures k.open == old(k.open) && k.nextFd == old(k.nextFd)
  {
    var made, errno := k.Mkdir(MOUNT_POINT, env.mkdir);
    if made < 0 && errno != AlreadyExists {
      return -1;
    }
    var m := k.Mount(devnode, MOUNT_POINT, MOUNT_FS_TYPE, MOUNT_FLAGS, env.mount);
    if m < 0 {
      return -1;
    }
    return 0;
  }

  /** `safeInstall`: copy `source` to update.uf2 in `destDir` and flush it. */
  method SafeInstall(k: Kernel, source: string, destDir: string, env: Env) returns (r: int)
    requires k.Valid()
    modifies k
    ensures k.Valid()
    ensures var run := CopyRun(source, destDir, env, old(k.nextFd));
      r == run.code && k.log == old(k.log) + run.calls
    ensures k.open == old(k.open) && k.mounts == old(k.mounts)
  {
    ghost var s0 := k.Snapshot();
    var destPath := DestPath(destDir);
    var srcFd := k.Open(source, ReadOnly, env.openSource);
    if srcFd < 0 {
      r := -1;
    } else {
      k.Fstat(srcFd);
      var dstFd := k.Open(destPath, WriteCreateTruncate, env.openDest);
      if dstFd < 0 {
        k.Close(srcFd);
        r := -1;
      } else {
        var sent := k.Sendfile(dstFd, srcFd, env.sendfile);
        if sent < 0 {
          k.Close(srcFd);
          k.Close(dstFd);
          r := -1;
        } else {
          k.Fsync(dstFd);
          k.Close(srcFd);
          k.Close(dstFd);
          r := 0;
        }
      }
    }
    CopyRestoresState(s0, source, destDir, env);
    ApplyAllAppend(k.boot, old(k.log), CopyRun(source, destDir, env, s0.nextFd).calls);
  }

  /**
   * `install`: mount, copy, and unmount after the copy whether it failed or
   * not. Every descriptor opened is closed again; the device is left mounted
   * only when the final unmount is refused.
   */
  method Install(k: Kernel, devnode: string, firmware: string, env: Env) returns (r: int)
    requires k.Valid()
    modifies k
    ensures k.Valid()
    ensures var run := InstallRun(devnode, firmware, env, old(k.dirExists), old(k.nextFd));
      r == run.code && k.log == old(k.log) + run.calls
    ensures k.open == old(k.open)
    ensures k.mounts == old(k.mounts) + (if MountRun(devnode, env, old(k.dirExists)).code == 0 && !env.umount then 1 else 0)
  {
    ghost var s0 := k.Snapshot();
    var m := MountDevice(k, devnode, env);
    if m == -1 {
      r := -1;
    } else {
      var c := SafeInstall(k, firmware, MOUNT_POINT, env);
      if c == -1 {
        var _ := k.Umount(MOUNT_POINT, env.umount);
        r := -1;
      } else {
        var _ := k.Umount(MOUNT_POINT, env.umount);
        r := 0;
      }
      ghost var mc := MountRun(devnode, env, s0.dirExists).calls;
      ghost var cc := CopyRun(firmware, MOUNT_POINT, env, s0.nextFd).calls;
      assert k.log == old(k.log) + mc + cc + [Umount(MOUNT_POINT, env.umount)];
      assert old(k.log) + mc + cc + [Umount(MOUNT_POINT, env.umount)] == old(k.log) + (mc + cc + [Umount(MOUNT_POINT, env.umount)]);
    }
    InstallRestoresState(s0, devnode, firmware, env);
    ApplyAllAppend(k.boot, old(k.log), InstallRun(devnode, firmware, env, s0.dirExists, s0.nextFd).calls);
  }
}
