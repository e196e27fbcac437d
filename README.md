# glovefi — a verified model of the Glove80 firmware installer

glovefi waits for the two halves of a Glove80 keyboard to appear in bootloader
mode as removable block devices, recognised by their filesystem labels
(`GLV80RHBOOT` for the right half, `GLV80LHBOOT` for the left), and copies a
`.uf2` firmware image onto each: right half first, then left, after which it
stops. This project models the logic of `main.c` in Dafny and proves what it
guarantees.

- `startup.dfy` (module `Startup`): `getFileExt` and the checks `main` makes
  before it starts listening: exactly one argument, the file exists, and its
  extension is exactly `uf2`.
- `os.dfy` (module `Os`): the kernel as the installer sees it. It tracks
  whether the mount point exists, how many mounts are stacked on it, the open
  descriptors, and a log of every system call with its result. Its state is
  always the replay (`ApplyAll`) of that log. Outcomes the model cannot derive
  from this state (permissions, a device that is not FAT, I/O errors) are
  given to each call as a verdict.
- `installer.dfy` (module `Installer`): `mountDevice`, `safeInstall` and
  `install` as methods on that kernel. Each is proved to issue exactly the
  calls of a pure `Run` function (`MountRun`, `CopyRun`, `InstallRun`). The
  resource discipline is proved about those functions: unmount after a
  successful mount, every descriptor closed.
- `sequencer.dfy` (module `Sequencer`): the `gloveMonitor` state machine. It
  has a pure step function `Step(rsfi, event, installResult)` and a fold over
  event traces (`Deliver`). The class `Monitor` holds the function-static flag
  `rsfi`, and its `Handle` method calls the real `Install` and follows `Step`.
- `wrappers.dfy`: the `Option` datatype for device properties that may be
  missing.

The model follows the code as written, including where it falls short of what an installer might be expected to do:
- When the mount fails, `install` returns at once and never calls `umount`
  (main.c:100-101).
- The result of `fsync` is ignored (main.c:92). A failed flush is not an
  install error.
- `snprintf` cuts `dest_path` short silently instead of refusing a long
  path (main.c:67). With the fixed mount point this cannot happen
  (`Installer.DestPathOnMountPoint`).
- An event whose label is neither half is ignored without any message
  (main.c:171). It is not rejected.

## Model

| member | source | states |
|---|---|---|
| `Startup.LastIndex` | main.c:42 | the index of the last occurrence of the character, with none after it; None exactly when the character does not occur (`strrchr`) |
| `Startup.FileExt` | main.c:41-46 | the result contains no '.'; when non-empty it is what follows a '.' that is not the first character of the name |
| `Startup.FileExtOfSplit` | main.c:41-46 | for a non-empty stem and a dot-free tail, the extension of stem + "." + tail is exactly the tail |
| `Startup.FileExtAbsent` | main.c:43-44 | a name with no '.', or whose only '.' is its first character, has the empty extension |
| `Startup.CheckStartup` | main.c:186-201 | usage error exactly when the argument count is not 2; file error exactly when the file is not accessible; the monitor starts exactly when the file exists and its extension is exactly "uf2", and then with argv[1] as firmware |
| `Startup.ExitCode` | main.c:186-200 | an early exit returns 0 exactly for the usage error and -1 for every other error |
| `Startup.AcceptedNamesEndInUf2` | main.c:191-201 | every accepted path exists and is a non-empty stem followed by ".uf2" |
| `Startup.Uf2NamesAccepted` | main.c:191-201 | every existing path of the form stem + ".uf2" with a non-empty stem is accepted |
| `Startup.OtherExtensionsRejected` | main.c:197-200 | any other extension ("bin", "hex", "UF2", empty after a trailing dot) is refused as not firmware |
| `Startup.NoExtensionRejected` | main.c:41-46 | a path with no dot, or a bare ".uf2", is refused as not firmware |
| `Startup.MissingFileReportedFirst` | main.c:192-195 | a missing file is reported as missing, with return value -1, before its extension is looked at |
| `Installer.DestPath` | main.c:66-67 | the destination path fits the 512-byte buffer, is a prefix of dir + "/update.uf2", and is that whole path when it fits |
| `Installer.DestPathOnMountPoint` | main.c:12 | with the fixed mount point the destination is "/tmp/glove80/update.uf2", untruncated |
| `Installer.MountRun` | main.c:48-63 | mounting succeeds exactly when the mount point exists or can be created (EEXIST tolerated) and the mount succeeds; it always starts with mkdir of the mount point, and a refused mkdir is the only call; the device is mounted exactly when it returns 0; every mount is of the device on the mount point as "vfat" with no access-time updates, no set-user-ID and no device nodes |
| `Installer.CopyRun` | main.c:65-97 | the copy returns 0 exactly when both opens and sendfile succeed, -1 otherwise |
| `Installer.CopyTransfersThenFlushes` | main.c:69-96 | a copy whose opens succeed opens the firmware read-only, then update.uf2 write-create-truncate, then sends from one to the other, and after a successful send fsyncs the destination before it is closed; fsync happens exactly when the copy succeeds, sendfile exactly when both opens succeed; a failed source open is the only call |
| `Installer.InstallCopiesWhileMounted` | main.c:99-110 | when the mount and both opens succeed, the firmware is opened read-only and /tmp/glove80/update.uf2 is opened for writing with truncation after the successful vfat mount; the sendfile from the one into the other (and the fsync) follow, and the final umount comes last |
| `Installer.InstallRun` | main.c:99-113 | install returns 0 exactly when the mount point, the mount, both opens and sendfile all succeed, -1 otherwise |
| `Installer.MountFailureCopiesNothing` | main.c:99-101 | after a failed mount, install returns -1 with no open, no sendfile and no umount |
| `Installer.UmountExactlyOnceAfterMount` | main.c:103-112 | once mounted, umount is called exactly once and as the last call, on the copy-failure path and the success path alike |
| `Installer.CopyRestoresState` | main.c:69-96 | on every return path the copy leaves exactly the descriptors open that were open before, and changes neither the mount point nor the mounts |
| `Installer.InstallRestoresState` | main.c:99-113 | install leaves the same descriptors open, creates the mount point if it can, and leaves the mount stack as before unless the final umount is refused |
| `Installer.MountDevice` | main.c:48-63 | issues exactly the calls of `MountRun` and returns its code; one more mount exactly when it returns 0 |
| `Installer.SafeInstall` | main.c:65-97 | issues exactly the calls of `CopyRun` and returns its code; open descriptors and mounts unchanged |
| `Installer.Install` | main.c:99-113 | issues exactly the calls of `InstallRun` and returns its code; no descriptor left open; mounts unchanged unless the umount was refused |
| `Sequencer.ClassifyAction` | main.c:140-141 | Add exactly for "add", Remove exactly for "remove" |
| `Sequencer.ClassifySide` | main.c:142-144 | Left exactly for label GLV80LHBOOT, Right exactly for GLV80RHBOOT |
| `Sequencer.Step` | main.c:134-175 | an event gets `Unreadable` exactly when a property is missing, and then changes nothing; a readable event is `RightRemoved` exactly when it removes the right half, and `Ignored` exactly when it neither adds a half nor removes the right half; the installer is called exactly for add-right without rsfi or add-left with rsfi; rsfi becomes true exactly after a right install that returns 0; the loop stops exactly after a left install that returns 0; wrong order exactly for add-left without rsfi; already done exactly for add-right with rsfi; right failed and left failed exactly when those installs return non-zero |
| `Sequencer.NoInstallNoDependence` | main.c:150-175 | an event that calls no installer keeps rsfi and does not depend on any install result |
| `Sequencer.OnlyAddsOfAHalfAct` | main.c:171-175 | removals, other actions, unknown labels and unreadable events never install and never change rsfi; only a right-half removal is reported |
| `Sequencer.RsfiNeverReset` | main.c:139-175 | over any event trace rsfi is never reset from true to false, and once the loop has stopped no event changes anything |
| `Sequencer.LeftOnlyAfterRight` | main.c:161-170 | over any event trace and any install results, every left install attempt comes after a successful right install |
| `Sequencer.AtMostTwoInstalls` | main.c:150-170 | when every install succeeds, the installer runs at most twice, and twice exactly when the loop has stopped |
| `Sequencer.RightTwiceThenLeft` | main.c:150-167 | events add-right, add-right, add-left with successful installs: two installs, "already done" in between, then the loop stops |
| `Sequencer.LeftFirstRefused` | main.c:161-170 | events add-left, add-right, add-left: wrong order with no install, then two installs and the loop stops |
| `Sequencer.Monitor.constructor` | main.c:139 | the session starts with rsfi false, no installs, the loop running |
| `Sequencer.Monitor.Handle` | main.c:122-178 | the returned outcome and the new session are those of `Step` and `Next` with the result of the install actually run; the kernel sees that install's calls and nothing else; no descriptor is left open; nothing stays mounted when umount succeeds |
| `Sequencer.RightTwiceThenLeftSession` | main.c:150-170 | on a fresh kernel, right, right, left: outcomes installed, already done, all done; the loop stops; nothing mounted or open |
| `Sequencer.MountFailureKeepsWaiting` | main.c:99-101 | a right half that does not mount: the install fails after mkdir and mount only, rsfi stays false and the loop keeps running |

## Left out

- The systemd plumbing (main.c:203-235) is not modelled: `sd_event_default`, the device monitor, its block-subsystem filter, the event loop and reference counting are foreign library calls. Events reach `Monitor.Handle` one at a time, in order.
- `exitLoop` (main.c:115-120) is modelled only as the `stopped` flag; `Deliver` delivers no event after it.
- Console output (`catAsciiArt`, the unused `printAllProps`, every `printf`/`perror`) is not modelled as text; each branch of the sequencer that prints has its own `Outcome` tag instead, and the three silent branches (an unknown label on an add, a removal of the left half or of an unknown label, and an action that is neither add nor remove) share the tag `Ignored`.
- System calls are verdicts, not semantics. File contents, byte counts and `st_size` are not modelled. So a short `sendfile` count is not detected, and neither is the garbage size after a failed `fstat`, just as in the source.
- The results of `fstat`, `fsync`, `close` and `umount` are not checked by the source, and the model checks none of them either.
- The permission modes given to `mkdir` (0755) and to the created `update.uf2` (0666) are not modelled; the kernel model has no permissions.
- The kernel model tracks a single directory, the mount point. Any `mkdir` failure other than an existing directory is one `Denied` errno. A non-directory file at that path is not distinguished.
- The kernel hands out descriptor numbers in increasing order, where POSIX gives the lowest free one; the model relies only on their being fresh.
- C strings are modelled as `seq<char>`; there are no NUL terminators and no byte encoding.
- The exit status of `main` after the loop ends, and after event-subsystem setup failures, is part of the left-out plumbing. Only the early returns of main.c:186-201 are modelled (`Startup.ExitCode`).
- Concurrency and signals: the program is single-threaded and an external kill is not modelled.
