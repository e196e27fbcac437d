/**
 * The install sequencer of `gloveMonitor`: each block-device event is
 * classified by its action and filesystem label, and the persistent flag
 * `rsfi` ("right side firmware installed") decides whether to install the
 * right half, install the left half and stop, refuse the wrong order, or do
 * nothing.
 */
module Sequencer {
  import opened Wrappers
  import opened Os
  import opened Installer

  /** Filesystem labels of the two halves in bootloader mode. */
  const GLOVE_R: string := "GLV80RHBOOT"
  const GLOVE_L: string := "GLV80LHBOOT"

  /** The three device properties the sequencer reads; each may be missing. */
  datatype Event = Event(action: Option<string>, devname: Option<string>, fsLabel: Option<string>)
  {
    predicate Readable() {
      action.Some? && devname.Some? && fsLabel.Some?
    }
  }

  datatype ActionKind = Add | Remove | OtherAction
  datatype Side = Left | Right | Unknown

  function ClassifyAction(action: string): (k: ActionKind)
    ensures k == Add <==> action == "add"
    ensures k == Remove <==> action == "remove"
  {
    if action == "add" then Add else if action == "remove" then Remove else OtherAction
  }

  /** Exact label match; any other label, however close, is Unknown. */
  function ClassifySide(fsLabel: string): (s: Side)
    ensures s == Left <==> fsLabel == GLOVE_L
    ensures s == Right <==> fsLabel == GLOVE_R
  {
    if fsLabel == GLOVE_L then Left else if fsLabel == GLOVE_R then Right else Unknown
  }

  /**
   * The distinguishable result of handling one event. Each tag but `Ignored`
   * prints its own notice; `Ignored` covers the silent cases.
   */
  datatype Outcome =
    | Unreadable         // a property is missing: the event is dropped
    | RightInstalled     // right half flashed; connect the left half
    | RightFailed        // right install returned an error
    | RightAlreadyDone   // right half presented again after success
    | AllDone            // left half flashed; the event loop is stopped
    | LeftFailed         // left install returned an error
    | WrongOrder         // left half presented before the right one
    | RightRemoved       // informational
    | Ignored            // any other event
  {
    predicate CallsInstaller() {
      RightInstalled? || RightFailed? || AllDone? || LeftFailed?
    }
  }

  /** The new value of `rsfi` and the outcome of one event. */
  datatype Transition = Transition(rsfi: bool, outcome: Outcome)

  /** Whether a readable event adds the given half. */
  predicate Adds(e: Event, side: Side) {
    e.Readable() && ClassifyAction(e.action.value) == Add && ClassifySide(e.fsLabel.value) == side
  }

  /**
   * One call of `gloveMonitor` from state `rsfi`; `installResult` is what
   * `install` returns if it is called, and is ignored otherwise.
   */
  function Step(rsfi: bool, e: Event, installResult: int): (t: Transition)
    ensures !e.Readable() ==> t == Transition(rsfi, Unreadable)
    ensures t.outcome == Unreadable <==> !e.Readable()
    ensures t.outcome == RightRemoved <==>
      e.Readable() && ClassifyAction(e.action.value) == Remove && ClassifySide(e.fsLabel.value) == Right
    ensures t.outcome == Ignored <==>
      e.Readable() && !Adds(e, Right) && !Adds(e, Left) &&
      !(ClassifyAction(e.action.value) == Remove && ClassifySide(e.fsLabel.value) == Right)
    ensures t.outcome.CallsInstaller() <==> (Adds(e, Right) && !rsfi) || (Adds(e, Left) && rsfi)
    ensures t.rsfi <==> rsfi || t.outcome == RightInstalled
    ensures t.outcome == RightInstalled <==> Adds(e, Right) && !rsfi && installResult == 0
    ensures t.outcome == AllDone <==> Adds(e, Left) && rsfi && installResult == 0
    ensures t.outcome == WrongOrder <==> Adds(e, Left) && !rsfi
    ensures t.outcome == RightAlreadyDone <==> Adds(e, Right) && rsfi
    ensures t.outcome == RightFailed <==> Adds(e, Right) && !rsfi && installResult != 0
    ensures t.outcome == LeftFailed <==> Adds(e, Left) && rsfi && installResult != 0
  {
    if e.action.None? || e.fsLabel.None? || e.devname.None? then
      Transition(rsfi, Unreadable)
    else
      var kind := ClassifyAction(e.action.value);
      var side := ClassifySide(e.fsLabel.value);
      if kind == Add then
        if side == Right then
          if !rsfi then
            if installResult == 0 then Transition(true, RightInstalled) else Transition(rsfi, RightFailed)
          else Transition(rsfi, RightAlreadyDone)
        else if side == Left then
          if rsfi then
            Transition(rsfi, if installResult == 0 then AllDone else LeftFailed)
          else Transition(rsfi, WrongOrder)
        else Transition(rsfi, Ignored)
      else if kind == Remove && side == Right then Transition(rsfi, RightRemoved)
      else Transition(rsfi, Ignored)
  }

  /** An event that does not call the installer does not depend on its result. */
  lemma NoInstallNoDependence(rsfi: bool, e: Event, a: int, b: int)
    requires !Step(rsfi, e, a).outcome.CallsInstaller()
    ensures Step(rsfi, e, a) == Step(rsfi, e, b)
    ensures Step(rsfi, e, a).rsfi == rsfi
  {
  }

  /**
   * Removals, other actions, unknown labels and unreadable events never
   * install and never change `rsfi`; only a right-half removal is reported.
   */
  lemma OnlyAddsOfAHalfAct(rsfi: bool, e: Event, installResult: int)
    requires !Adds(e, Left) && !Adds(e, Right)
    ensures var t := Step(rsfi, e, installResult);
      t.rsfi == rsfi && (t.outcome == Unreadable || t.outcome == RightRemoved || t.outcome == Ignored)
    ensures Step(rsfi, e, installResult).outcome == RightRemoved <==>
      e.Readable() && ClassifyAction(e.action.value) == Remove && ClassifySide(e.fsLabel.value) == Right
  {
  }

  /** The sequencer's state over a session, with the ghost tallies of what happened. */
  datatype Session = Session(rsfi: bool, installs: nat, stopped: bool, outcomes: seq<Outcome>)

  const START: Session := Session(false, 0, false, [])

  /** The session after handling one more event. */
  function Next(s: Session, e: Event, installResult: int): Session {
    var t := Step(s.rsfi, e, installResult);
    Session(t.rsfi,
            s.installs + (if t.outcome.CallsInstaller() then 1 else 0),
            s.stopped || t.outcome == AllDone,
            s.outcomes + [t.outcome])
  }

  /**
   * Delivering `events` in order; `results[i]` is what the installer
   * returns if event `i` calls it. Once the loop is stopped no event arrives.
   */
  function Deliver(s: Session, events: seq<Event>, results: seq<int>): Session
    requires |results| == |events|
    decreases |events|
  {
    if events == [] || s.stopped then s
    else Deliver(Next(s, events[0], results[0]), events[1..], results[1..])
  }

  /** `rsfi` is never reset from true to false, and a stopped loop stays stopped. */
  lemma {:induction false} RsfiNeverReset(s: Session, events: seq<Event>, results: seq<int>)
    requires |results| == |events|
    ensures s.rsfi ==> Deliver(s, events, results).rsfi
    ensures s.stopped ==> Deliver(s, events, results) == s
    ensures |Deliver(s, events, results).outcomes| >= |s.outcomes|
    decreases |events|
  {
    if events != [] && !s.stopped {
      RsfiNeverReset(Next(s, events[0], results[0]), events[1..], results[1..]);
    }
  }

  /** Every left-half install attempt in `log` comes after a successful right install. */
  ghost predicate OrderRespected(log: seq<Outcome>) {
    forall i :: 0 <= i < |log| && (log[i] == AllDone || log[i] == LeftFailed) ==>
      exists j :: 0 <= j < i && log[j] == RightInstalled
  }

  /**
   * Whatever events arrive and whatever the installer returns, the left half
   * is never flashed, nor even attempted, before the right half succeeded.
   */
  lemma {:induction false} LeftOnlyAfterRight(s: Session, events: seq<Event>, results: seq<int>)
    requires |results| == |events|
    requires s.rsfi ==> RightInstalled in s.outcomes
    requires OrderRespected(s.outcomes)
    ensures OrderRespected(Deliver(s, events, results).outcomes)
    ensures Deliver(s, events, results).rsfi ==> RightInstalled in Deliver(s, events, results).outcomes
    decreases |events|
  {
    if events != [] && !s.stopped {
      var n := Next(s, events[0], results[0]);
      var o := n.outcomes[|s.outcomes|];
      assert n.outcomes == s.outcomes + [o];
      if o == AllDone || o == LeftFailed {
        var j :| 0 <= j < |s.outcomes| && s.outcomes[j] == RightInstalled;
        assert n.outcomes[j] == RightInstalled;
      }
      assert forall i :: 0 <= i < |s.outcomes| ==> n.outcomes[i] == s.outcomes[i];
      LeftOnlyAfterRight(n, events[1..], results[1..]);
    }
  }

  /**
   * When every install succeeds, each half is flashed at most once: the
   * installer runs at most twice in a session, and twice exactly when the
   * loop has been stopped.
   */
  lemma {:induction false} AtMostTwoInstalls(s: Session, events: seq<Event>, results: seq<int>)
    requires |results| == |events|
    requires forall i :: 0 <= i < |results| ==> results[i] == 0
    requires s.installs == (if s.rsfi then 1 else 0) + (if s.stopped then 1 else 0)
    requires s.stopped ==> s.rsfi
    ensures var d := Deliver(s, events, results);
      d.installs <= 2 && (d.installs == 2 <==> d.stopped)
    decreases |events|
  {
    if events != [] && !s.stopped {
      AtMostTwoInstalls(Next(s, events[0], results[0]), events[1..], results[1..]);
    }
  }

  function AddEvent(dev: string, fsLabel: string): Event {
    Event(Some("add"), Some(dev), Some(fsLabel))
  }

  /** Right, right again, left, all installs succeeding: two installs, then the loop stops. */
  lemma RightTwiceThenLeft(rdev: string, ldev: string)
    ensures var d := Deliver(START, [AddEvent(rdev, GLOVE_R), AddEvent(rdev, GLOVE_R), AddEvent(ldev, GLOVE_L)], [0, 0, 0]);
      d.installs == 2 && d.stopped && d.outcomes == [RightInstalled, RightAlreadyDone, AllDone]
  {
    var evs := [AddEvent(rdev, GLOVE_R), AddEvent(rdev, GLOVE_R), AddEvent(ldev, GLOVE_L)];
    assert GLOVE_R != GLOVE_L by { assert GLOVE_R[5] != GLOVE_L[5]; }
    var s1 := Next(START, evs[0], 0);
    var s2 := Next(s1, evs[1], 0);
    var s3 := Next(s2, evs[2], 0);
    assert Deliver(START, evs, [0, 0, 0]) == Deliver(s1, evs[1..], [0, 0]);
    assert Deliver(s1, evs[1..], [0, 0]) == Deliver(s2, evs[2..], [0]);
    assert Deliver(s2, evs[2..], [0]) == Deliver(s3, [], []);
  }

  /** Left first is refused without an install; then right and left install. */
  lemma LeftFirstRefused(rdev: string, ldev: string)
    ensures var d := Deliver(START, [AddEvent(ldev, GLOVE_L), AddEvent(rdev, GLOVE_R), AddEvent(ldev, GLOVE_L)], [0, 0, 0]);
      d.installs == 2 && d.stopped && d.outcomes == [WrongOrder, RightInstalled, AllDone]
  {
    var evs := [AddEvent(ldev, GLOVE_L), AddEvent(rdev, GLOVE_R), AddEvent(ldev, GLOVE_L)];
    assert GLOVE_R != GLOVE_L by { assert GLOVE_R[5] != GLOVE_L[5]; }
    var s1 := Next(START, evs[0], 0);
    var s2 := Next(s1, evs[1], 0);
    var s3 := Next(s2, evs[2], 0);
    assert Deliver(START, evs, [0, 0, 0]) == Deliver(s1, evs[1..], [0, 0]);
    assert Deliver(s1, evs[1..], [0, 0]) == Deliver(s2, evs[2..], [0]);
    assert Deliver(s2, evs[2..], [0]) == Deliver(s3, [], []);
  }

  /** The device path the installer is given; only read for readable events. */
  function DeviceOf(e: Event): string {
    if e.devname.Some? then e.devname.value else ""
  }

  /**
   * The monitor callback with its function-static flag `rsfi`, the firmware
   * path it was started with, and the kernel the installer works on.
   * `installs` and `outcomes` are ghost tallies of what happened so far.
   */
  class Monitor {
    const firmware: string
    const kernel: Kernel
    var rsfi: bool
    var stopped: bool
    ghost var installs: nat
    ghost var outcomes: seq<Outcome>

    ghost function Progress(): Session
      reads this
    {
      Session(rsfi, installs, stopped, outcomes)
    }

    ghost predicate Valid()
      reads this, kernel
    {
      kernel.Valid()
    }

    constructor (firmware: string, kernel: Kernel)
      requires kernel.Valid()
      ensures Valid() && Progress() == START
      ensures this.firmware == firmware && this.kernel == kernel
    {
      this.firmware := firmware;
      this.kernel := kernel;
      rsfi, stopped := false, false;
      installs, outcomes := 0, [];
    }

    /**
     * `gloveMonitor` for one event. The session advances exactly as `Next`
     * says, with the result of the install the event triggers, if any; the
     * kernel sees that install's calls and nothing else.
     */
    method Handle(e: Event, env: Env) returns (o: Outcome)
      requires Valid() && !stopped
      modifies this, kernel
      ensures Valid()
      ensures var run := InstallRun(DeviceOf(e), firmware, env, old(kernel.dirExists), old(kernel.nextFd));
        && o == Step(old(rsfi), e, run.code).outcome
        && Progress() == Next(old(Progress()), e, run.code)
        && kernel.log == old(kernel.log) + (if o.CallsInstaller() then run.calls else [])
      ensures kernel.open == old(kernel.open)
      ensures env.umount ==> kernel.mounts == old(kernel.mounts)
    {
      ghost var t := Step(rsfi, e, InstallRun(DeviceOf(e), firmware, env, kernel.dirExists, kernel.nextFd).code);
      if e.action.None? || e.fsLabel.None? || e.devname.None? {
        o := Unreadable;
      } else {
        var isAdd := e.action.value == "add";
        var isRemove := e.action.value == "remove";
        var isLeft := e.fsLabel.value == GLOVE_L;
        var isRight := e.fsLabel.value == GLOVE_R;
        if isAdd {
          if isRight {
            if !rsfi {
              var r := Install(kernel, e.devname.value, firmware, env);
              if r == 0 {
                rsfi := true;
                o := RightInstalled;
              } else {
                o := RightFailed;
              }
            } else {
              o := RightAlreadyDone;
            }
          } else if isLeft {
            if rsfi {
              var r := Install(kernel, e.devname.value, firmware, env);
              if r == 0 {
                o := AllDone;
                stopped := true;  // exitLoop: stop the monitor and the event loop
              } else {
                o := LeftFailed;
              }
            } else {
              o := WrongOrder;
            }
          } else {
            o := Ignored;
          }
        } else if isRemove && isRight {
          o := RightRemoved;
        } else {
          o := Ignored;
        }
      }
      assert o == t.outcome && rsfi == t.rsfi;
      installs := installs + (if o.CallsInstaller() then 1 else 0);
      outcomes := outcomes + [o];
    }
  }

  /** Every system call succeeds. */
  const ALL_GRANTED: Env := Env(true, true, true, true, true, true)

  /**
   * A whole session on a fresh kernel: right, right again, left. Two
   * installs, the loop stops, and nothing is left mounted or open.
   */
  method RightTwiceThenLeftSession(firmware: string, rdev: string, ldev: string)
    returns (outcomes: seq<Outcome>, stopped: bool, mounts: nat, open: set<nat>)
    ensures outcomes == [RightInstalled, RightAlreadyDone, AllDone] && stopped
    ensures mounts == 0 && open == {}
  {
    assert GLOVE_R != GLOVE_L by { assert GLOVE_R[5] != GLOVE_L[5]; }
    var k := new Kernel(false);
    var m := new Monitor(firmware, k);
    var o1 := m.Handle(AddEvent(rdev, GLOVE_R), ALL_GRANTED);
    var o2 := m.Handle(AddEvent(rdev, GLOVE_R), ALL_GRANTED);
    var o3 := m.Handle(AddEvent(ldev, GLOVE_L), ALL_GRANTED);
    outcomes, stopped, mounts, open := [o1, o2, o3], m.stopped, k.mounts, k.open;
  }

  /**
   * A right half that will not mount: the install fails before any copy,
   * nothing is unmounted because nothing was mounted, `rsfi` stays false
   * and the loop keeps waiting.
   */
  method MountFailureKeepsWaiting(firmware: string, rdev: string)
    returns (o: Outcome, rsfi: bool, stopped: bool, ghost calls: seq<Syscall>)
    ensures o == RightFailed && !rsfi && !stopped
    ensures calls == [Mkdir(MOUNT_POINT, NoError), Mount(rdev, MOUNT_POINT, "vfat", {NoAtime, NoSuid, NoDev}, false)]
  {
    var k := new Kernel(false);
    var m := new Monitor(firmware, k);
    o := m.Handle(AddEvent(rdev, GLOVE_R), ALL_GRANTED.(mount := false));
    rsfi, stopped, calls := m.rsfi, m.stopped, k.log;
  }
}
