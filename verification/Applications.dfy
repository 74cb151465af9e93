/** The desktop's tasks: at most four programs, one in the foreground, the others paused in the background. */
module Applications {
  import opened Common

  const TASK_LIMIT := 4
  const MEMORY_FLOOR := 128 * 1024
  const PATIENCE := 1500

  datatype Signal = Stop | Continue | Terminate | Kill

  datatype ProcessState = Starting | Alive | Ended

  datatype Trouble = Nothing | TooMany | Memory | Platform | Program | Crashed

  /** An application's identifier: one of the desktop's own utilities, or any other name. */
  datatype Id = BuiltinFiles | BuiltinText | BuiltinTransfer | BuiltinBrowser | BuiltinTerminal | Other(name: string)

  /** Utilities keep copying and transferring in the background; everything else is paused there. */
  ghost predicate Utility(id: Id) {
    !id.Other?
  }

  /** Whether a process group that received these signals is stopped. */
  ghost predicate Halted(sent: seq<Signal>) {
    sent != []
    && var last := sent[|sent| - 1];
       last.Stop? || (!last.Continue? && Halted(sent[..|sent| - 1]))
  }

  /** What a started task is sent to end it. */
  ghost function Ending(paused: bool): seq<Signal> {
    if paused then [Continue, Terminate] else [Terminate]
  }

  lemma HaltedAfter(sent: seq<Signal>, s: Signal)
    ensures Halted(sent + [s]) <==> s.Stop? || (!s.Continue? && Halted(sent))
  {
    assert (sent + [s])[..|sent|] == sent;
  }

  class Task {
    const id: Id
    const slot: nat
    var process: ProcessState
    var group: nat
    var code: int
    var stopping: bool
    var done: bool
    var failed: bool
    var paused: bool
    var clock: Option<nat>
    /** The signals its process group has received. */
    ghost var sent: seq<Signal>

    constructor (id: Id, slot: nat)
      ensures this.id == id && this.slot == slot
      ensures process == Starting && group == 0 && !stopping && !done && !paused && clock == None && sent == []
    {
      this.id, this.slot := id, slot;
      process, group, code, stopping, done, failed, paused, clock := Starting, 0, 0, false, false, false, false, None;
      sent := [];
    }

    ghost predicate Wanted()
      reads this
    {
      !stopping && !done
    }

    /** What one task always satisfies, given whether it is the one in the foreground. */
    ghost predicate Valid(foreground: bool)
      reads this
    {
      && (process == Starting ==> group == 0 && sent == [])
      && (clock.Some? <==> !Wanted())
      && (Utility(id) ==> !paused && Stop !in sent)
      && (foreground ==> !paused)
      && (Wanted() ==> (paused <==> !foreground && !Utility(id)))
      && (Wanted() && group > 1 && paused ==> Stop in sent)
      && Agreed()
    }

    /** A started task is halted exactly if it is paused and was told so: one killed at its start may not have been. */
    ghost predicate Agreed()
      reads this
    {
      group > 1 ==> (Halted(sent) <==> paused && Stop in sent)
    }

    method SignalGroup(s: Signal)
      modifies this`sent
      ensures sent == if group > 1 then old(sent) + [s] else old(sent)
      ensures group > 1 ==> (Halted(sent) <==> s.Stop? || (!s.Continue? && old(Halted(sent))))
      ensures group > 1 ==> (Stop in sent <==> s.Stop? || Stop in old(sent))
    {
      HaltedAfter(sent, s);
      if group > 1 { sent := sent + [s]; }
    }

    /** Pauses or resumes a task that goes to the background or comes back. */
    method Suspend(pause: bool)
      requires process == Starting ==> group == 0 && sent == []
      requires Utility(id) ==> !paused && Stop !in sent
      requires Agreed()
      modifies this`paused, this`sent
      ensures paused == (pause && !Utility(id)) && Agreed()
      ensures process == Starting ==> sent == []
      ensures Utility(id) ==> Stop !in sent
      ensures sent == old(sent)
                      + if group <= 1 || old(paused) == paused then [] else [if pause then Stop else Continue]
    {
      if !id.Other? { return; }
      if paused == pause { return; }
      paused := pause;
      SignalGroup(if pause then Stop else Continue);
    }

    /** Asks the task to end, having let it run again so that it can. */
    method AskToStop(now: nat, ghost foreground: bool)
      requires Valid(foreground)
      modifies this`stopping, this`paused, this`sent, this`clock
      ensures Valid(foreground) && stopping && !paused && clock == Some(now)
      ensures sent == old(sent) + if group > 1 then Ending(old(paused)) else []
    {
      stopping := true;
      Suspend(false);
      SignalGroup(Terminate);
      clock := Some(now);
    }

    method KillNow(now: nat, ghost foreground: bool)
      requires Valid(foreground)
      modifies this`stopping, this`sent, this`clock
      ensures Valid(foreground) && stopping && clock == Some(now)
      ensures sent == if group > 1 then old(sent) + [Kill] else old(sent)
    {
      stopping := true;
      SignalGroup(Kill);
      clock := Some(now);
    }

    /** The process has started: what was decided about it before is now carried out. */
    method Begin(pid: nat, ghost foreground: bool)
      requires Valid(foreground) && process == Starting && pid > 1
      modifies this`process, this`group, this`sent
      ensures Valid(foreground) && process == Alive && group == pid
      ensures sent == if stopping then [Kill] else if paused then [Stop] else []
    {
      process, group := Alive, pid;
      if stopping {
        SignalGroup(Kill);
      } else if paused {
        SignalGroup(Stop);
      }
    }

    /** The process has ended; its group is told to end too. */
    method End(code: int, crashed: bool, now: nat, ghost foreground: bool)
      requires Valid(foreground) && process == Alive
      modifies this`process, this`code, this`failed, this`done, this`sent, this`clock
      ensures Valid(foreground) && process == Ended && done && this.code == code
      ensures failed == (!stopping && (code != 0 || crashed)) && clock == Some(now)
      ensures sent == old(sent) + if group > 1 then [Terminate] else []
    {
      process, this.code, failed, done := Ended, code, !stopping && (code != 0 || crashed), true;
      SignalGroup(Terminate);
      clock := Some(now);
    }

    /** Nothing is left of the task. */
    ghost predicate Gone()
      reads this
    {
      done && group == 0 && process == Ended
    }

    /** The task has had its one and a half seconds to end. */
    ghost predicate Late(now: nat)
      reads this
    {
      clock.Some? && now >= clock.value + 1500
    }

    twostate predicate Untouched()
      reads this
    {
      group == old(group) && sent == old(sent)
    }

    /** What a look at the task does: its group is forgotten if it has vanished, and killed if it is late. */
    twostate predicate Swept(now: nat, vanished: set<nat>)
      reads this
    {
      && group == (if old(group) in vanished then 0 else old(group))
      && sent == if Late(now) && group > 1 then old(sent) + [Kill] else old(sent)
    }

    /** A look at a task while something is being stopped: whoever outstays the patience is killed. */
    method Sweep(now: nat, vanished: set<nat>, ghost foreground: bool)
      requires Valid(foreground)
      modifies this`group, this`sent
      ensures Valid(foreground)
      ensures Swept(now, vanished)
    {
      if group > 0 && group in vanished { group := 0; }
      if clock.Some? && now >= clock.value + PATIENCE { SignalGroup(Kill); }
    }
  }

  /** The slots in use. */
  ghost function Slots(tasks: seq<Task>): set<nat> {
    set t | t in tasks :: t.slot
  }

  lemma {:induction false} FewSlots(tasks: seq<Task>)
    ensures |Slots(tasks)| <= |tasks|
  {
    if tasks != [] {
      FewSlots(tasks[1..]);
      assert Slots(tasks) == Slots(tasks[1..]) + {tasks[0].slot} by {
        forall t | t in tasks ensures t == tasks[0] || t in tasks[1..] { }
      }
    }
  }

  lemma {:induction false} Numbers(n: nat, s: set<nat>)
    requires forall k: nat :: k < n ==> k in s
    ensures n <= |s|
  {
    if n > 0 {
      var less := s - {n - 1};
      assert forall k: nat :: k < n - 1 ==> k in less;
      Numbers(n - 1, less);
    }
  }

  /** If every slot below n is taken, there are at least n tasks. */
  lemma Pigeonhole(tasks: seq<Task>, n: nat)
    requires forall k: nat :: k < n ==> k in Slots(tasks)
    ensures n <= |tasks|
  {
    Numbers(n, Slots(tasks));
    FewSlots(tasks);
  }

  class Applications {
    var tasks: seq<Task>
    var active: Task?
    var stopTimer: bool
    var now: nat
    var trouble: Trouble
    var exitCode: int

    ghost predicate Distinct()
      reads this
    {
      && |tasks| <= TASK_LIMIT
      && (forall i, j :: 0 <= i < j < |tasks| ==>
            tasks[i] != tasks[j] && tasks[i].id != tasks[j].id && tasks[i].slot != tasks[j].slot)
      && (forall t :: t in tasks ==> t.slot < TASK_LIMIT)
      && (active != null ==> active in tasks)
    }

    /**
     At most four tasks with distinct names and input slots; the foreground task is one of them; a task that is
     neither stopping nor done is paused exactly in the background and unless it is a utility, and once it has
     started the signals it received agree; and the stop timer runs while anything remains to be stopped.
     */
    ghost predicate Valid()
      reads this, tasks
    {
      && Distinct()
      && (forall t :: t in tasks ==> t.Valid(t == active))
      && (forall t :: t in tasks ==> t.clock.Some? ==> stopTimer)
    }

    ghost function Members(): set<Task>
      reads this
    {
      set t | t in tasks
    }

    constructor ()
      ensures Valid() && tasks == [] && active == null
    {
      tasks, active, stopTimer, now, trouble, exitCode := [], null, false, 0, Nothing, 0;
    }

    method Find(id: Id) returns (found: Task?)
      requires Distinct()
      ensures found == null ==> forall t :: t in tasks ==> t.id != id
      ensures found != null ==> found in tasks && found.id == id
    {
      for i := 0 to |tasks|
        invariant forall j :: 0 <= j < i ==> tasks[j].id != id
      {
        if tasks[i].id == id { return tasks[i]; }
      }
      return null;
    }

    /** t has left the foreground: unless it is a utility it is paused, even if it was asked to end before. */
    twostate predicate SentAway(t: Task)
      reads t
    {
      && t.paused == !Utility(t.id) && t.group == old(t.group) && t.stopping == old(t.stopping)
      && t.sent == old(t.sent) + if t.group > 1 && !Utility(t.id) then [Signal.Stop] else []
    }

    /** t was told to go on if it was paused. */
    twostate predicate Resumed(t: Task)
      reads t
    {
      !t.paused && t.sent == old(t.sent) + if t.group > 1 && old(t.paused) then [Continue] else []
    }

    method Background()
      requires Valid()
      modifies this, tasks
      ensures Valid() && tasks == old(tasks) && active == null
      ensures forall t :: t in tasks ==> (t.Wanted() <==> old(t.Wanted()))
      ensures old(active) != null ==> SentAway(old(active))
      ensures forall t :: t in tasks && t != old(active) ==> unchanged(t)
    {
      if active == null { return; }
      active.Suspend(true);
      active := null;
    }

    /** Brings a task to the foreground; one that is stopping, done or already there stays as it is. */
    method Activate(id: Id) returns (ok: bool)
      requires Valid()
      modifies this, tasks
      ensures Valid() && tasks == old(tasks)
      ensures ok <==> exists t :: t in tasks && t.id == id && old(t.Wanted()) && t != old(active)
      ensures ok ==> active != null && active.id == id && active.Wanted() && trouble == Nothing && exitCode == 0
      ensures ok ==> Resumed(active)
      ensures ok && old(active) != null ==> SentAway(old(active))
      ensures forall t :: t in tasks && (!ok || (t != active && t != old(active))) ==> unchanged(t)
      ensures !ok ==> active == old(active) && trouble == old(trouble) && exitCode == old(exitCode)
    {
      var t := Find(id);
      if t == null { return false; }
      SameTask(t, id);
      if t.stopping || t.done || active == t { return false; }
      Background();
      Show(t);
      return true;
    }

    method Show(t: Task)
      requires Valid() && active == null && t in tasks && t.Wanted()
      modifies this`active, this`trouble, this`exitCode, t
      ensures Valid() && active == t && t.Wanted() && trouble == Nothing && exitCode == 0
      ensures Resumed(t)
    {
      active := t;
      t.Suspend(false);
      trouble, exitCode := Nothing, 0;
    }

    lemma SameTask(t: Task, id: Id)
      requires Distinct() && t in tasks && t.id == id
      ensures forall u :: u in tasks && u.id == id ==> u == t
    {
      var i :| 0 <= i < |tasks| && tasks[i] == t;
      forall u | u in tasks && u.id == id ensures u == t {
        var j :| 0 <= j < |tasks| && tasks[j] == u;
        assert !(i < j) && !(j < i);
      }
    }

    /** The lowest input slot that no task has. */
    method FreeSlot() returns (slot: nat)
      requires Distinct() && |tasks| < TASK_LIMIT
      ensures slot < TASK_LIMIT && slot !in Slots(tasks)
      ensures forall k: nat :: k < slot ==> k in Slots(tasks)
    {
      slot := 0;
      while exists t :: t in tasks && t.slot == slot
        invariant forall k: nat :: k < slot ==> k in Slots(tasks)
        invariant slot <= |tasks|
        decreases |tasks| - slot
      {
        Pigeonhole(tasks, slot + 1);
        slot := slot + 1;
      }
    }

    /**
     Starts a program in the foreground, or brings it there if it runs already. `memory` is what the kernel says
     is available, in KiB, and None when it does not say.
     */
    method LaunchPrepared(id: Id, routed: bool, memory: Option<nat>, platformFits: bool, programFits: bool)
      returns (ok: bool)
      requires Valid()
      modifies this, tasks
      ensures Valid()
      ensures || tasks == old(tasks)
              || (|tasks| == |old(tasks)| + 1 && tasks[..|old(tasks)|] == old(tasks) && fresh(tasks[|old(tasks)|]))
      ensures tasks != old(tasks) <==> && (forall t :: t in old(tasks) ==> t.id != id) && |old(tasks)| < 4
                                       && (routed ==> memory.Some? && memory.value >= 131072)
                                       && platformFits && programFits
      ensures tasks == old(tasks) && (forall t :: t in tasks ==> t.id != id) ==>
                && exitCode == -1 && active == old(active)
                && trouble == if |tasks| == 4 then TooMany
                              else if routed && !(memory.Some? && memory.value >= 131072) then Memory
                              else if !platformFits then Platform else Program
      ensures tasks != old(tasks) ==> trouble == Nothing && exitCode == 0
      ensures forall t :: t in old(tasks) && t != active && t != old(active) ==> unchanged(t)
      ensures tasks != old(tasks) ==> ok && active == tasks[|old(tasks)|] && active.id == id
                                      && active.slot !in Slots(old(tasks))
                                      && forall k: nat :: k < active.slot ==> k in Slots(old(tasks))
      ensures ok <==> || tasks != old(tasks)
                      || exists t :: t in old(tasks) && t.id == id && old(t.Wanted()) && t != old(active)
      ensures ok && old(active) != null ==> SentAway(old(active))
    {
      var present := Find(id);
      if present != null {
        ok := Activate(id);
        return;
      }
      ok := false;
      if |tasks| >= TASK_LIMIT {
        Refuse(TooMany);
        return;
      }
      if routed && (memory.None? || memory.value < MEMORY_FLOOR) {
        Refuse(Memory);
        return;
      }
      if !platformFits {
        Refuse(Platform);
        return;
      }
      if !programFits {
        Refuse(Program);
        return;
      }
      Start(id);
      ok := true;
    }

    method Start(id: Id)
      requires Valid() && |tasks| < TASK_LIMIT && forall t :: t in tasks ==> t.id != id
      modifies this, tasks
      ensures Valid() && |tasks| == |old(tasks)| + 1
      ensures tasks[..|old(tasks)|] == old(tasks) && fresh(tasks[|old(tasks)|])
      ensures active == tasks[|old(tasks)|] && active.id == id
      ensures active.slot !in Slots(old(tasks)) && forall k: nat :: k < active.slot ==> k in Slots(old(tasks))
      ensures old(active) != null ==> SentAway(old(active))
      ensures trouble == Nothing && exitCode == 0
      ensures forall t :: t in old(tasks) && t != old(active) ==> unchanged(t)
    {
      var slot := FreeSlot();
      var task := new Task(id, slot);
      Background();
      tasks := tasks + [task];
      active := task;
      trouble, exitCode := Nothing, 0;
    }

    method Refuse(why: Trouble)
      requires Valid()
      modifies this`trouble, this`exitCode
      ensures Valid() && trouble == why && exitCode == -1
    {
      trouble, exitCode := why, -1;
    }

    // Stopping.

    /** t was asked to end, and resumed first if it was paused. */
    twostate predicate AskedToEnd(t: Task)
      reads this`now, t
    {
      && t.stopping && !t.paused && t.clock == Some(now)
      && t.process == old(t.process) && t.group == old(t.group) && t.done == old(t.done)
      && t.sent == old(t.sent) + if t.group > 1 then Ending(old(t.paused)) else []
    }

    method StopOne(t: Task)
      requires Valid() && t in tasks
      modifies this`stopTimer, t
      ensures Valid() && AskedToEnd(t) && stopTimer
    {
      t.AskToStop(now, t == active);
      stopTimer := true;
    }

    /** Asks the foreground task to end, having let it run again so that it can. */
    method Stop()
      requires Valid()
      modifies this, tasks
      ensures Valid() && tasks == old(tasks) && active == old(active)
      ensures active != null ==> AskedToEnd(active) && stopTimer
      ensures forall t :: t in tasks && t != active ==> unchanged(t)
    {
      if active == null { return; }
      StopOne(active);
    }

    method StopAll()
      requires Valid()
      modifies this, tasks
      ensures Valid() && tasks == old(tasks) && active == old(active) && stopTimer
      ensures forall t :: t in tasks ==> AskedToEnd(t)
    {
      for i := 0 to |tasks|
        invariant Valid() && tasks == old(tasks) && active == old(active) && now == old(now)
        invariant forall j :: 0 <= j < i ==> AskedToEnd(tasks[j])
        invariant forall j :: i <= j < |tasks| ==> unchanged(tasks[j])
      {
        StopOne(tasks[i]);
      }
      stopTimer := true;
    }

    /**
     Whether a task that is being stopped is halted: leaving the foreground after being asked to end halts a started
     task that is no utility, although it may not have ended yet.
     */
    method StopThenBackground() returns (t: Task?)
      requires Valid()
      modifies this, tasks
      ensures Valid() && tasks == old(tasks) && active == null && t == old(active)
      ensures t != null ==> t.stopping && stopTimer && t.group == old(t.group)
      ensures t != null && t.group > 1 && !Utility(t.id) ==> t.sent == old(t.sent) + [Terminate, Signal.Stop]
      ensures t != null && t.group > 1 ==> (Halted(t.sent) <==> !Utility(t.id))
    {
      t := active;
      Stop();
      Background();
    }

    /** Kills a task, the foreground one if none is named; a paused task need not be resumed for that. */
    method ForceKill(id: Option<Id>)
      requires Valid()
      modifies this, tasks
      ensures Valid() && tasks == old(tasks) && active == old(active)
      ensures forall t :: t in tasks && (if id.Some? then t.id == id.value else t == active) ==>
                t.stopping && stopTimer && (t.group > 1 ==> t.sent == old(t.sent) + [Kill])
      ensures forall t :: t in tasks && !(if id.Some? then t.id == id.value else t == active) ==> unchanged(t)
    {
      if id.None? && active == null { return; }
      var selected := if id.Some? then id.value else active.id;
      var t := Find(selected);
      if t == null { return; }
      SameTask(t, selected);
      t.KillNow(now, t == active);
      stopTimer := true;
    }

    /**
     Whether the compositor is to be asked to close the foreground window, after bringing a named task there: it is
     unless nothing is in front, what was in front is being stopped, or the named task cannot be brought there.
     */
    method RequestClose(id: Option<Id>) returns (ask: bool)
      requires Valid()
      modifies this, tasks
      ensures Valid() && tasks == old(tasks)
      ensures ask ==> active != null && !active.stopping && (id.Some? ==> active.id == id.value)
      ensures ask <==> if id.None? || (old(active) != null && old(active).id == id.value)
                       then old(active) != null && !old(active.stopping)
                       else exists t :: t in tasks && t.id == id.value && old(t.Wanted())
    {
      if id.Some? && !(active != null && active.id == id.value) {
        var shown := Activate(id.value);
        if !shown { return false; }
      }
      ask := active != null && !active.stopping;
    }

    // What processes report.

    method Started(t: Task, pid: nat)
      requires Valid() && t in tasks && t.process == Starting && pid > 1
      modifies t
      ensures Valid() && t.process == Alive && t.group == pid
      ensures t.sent == if t.stopping then [Kill] else if t.paused then [Signal.Stop] else []
    {
      t.Begin(pid, t == active);
    }

    method FailedToStart(t: Task)
      requires Valid() && t in tasks && t.process == Starting
      modifies this, t
      ensures Valid() && Removed(old(tasks), t)
      ensures t.process == Ended && t.done && t.failed && t.code == -1
      ensures if old(active) == t then active == null && exitCode == -1 && trouble == Crashed
              else active == old(active) && exitCode == old(exitCode) && trouble == old(trouble)
    {
      t.process, t.done, t.failed, t.code := Ended, true, true, -1;
      Complete(t);
    }

    /** A process has ended; its group is told to end too, and the task stays until the group is gone. */
    method Exited(t: Task, code: int, crashed: bool)
      requires Valid() && t in tasks && t.process == Alive
      modifies this`stopTimer, t
      ensures Valid() && t.process == Ended && t.done && t.code == code && t.clock == Some(now) && stopTimer
      ensures t.failed == (!t.stopping && (code != 0 || crashed))
      ensures t.sent == old(t.sent) + if t.group > 1 then [Terminate] else []
    {
      t.End(code, crashed, now, t == active);
      stopTimer := true;
    }

    /** Only t has left the list. */
    ghost predicate Removed(before: seq<Task>, t: Task)
      reads this
    {
      && t !in tasks && |tasks| == |before| - 1
      && (forall u :: u in tasks ==> u in before) && (forall u :: u in before && u != t ==> u in tasks)
    }

    method Complete(t: Task)
      requires Distinct() && t in tasks
      modifies this`tasks, this`active, this`exitCode, this`trouble
      ensures Distinct() && Removed(old(tasks), t)
      ensures active == if old(active) == t then null else old(active)
      ensures if old(active) == t then exitCode == t.code && trouble == if t.failed then Crashed else Nothing
              else exitCode == old(exitCode) && trouble == old(trouble)
    {
      if active == t {
        active, exitCode, trouble := null, t.code, if t.failed then Crashed else Nothing;
      }
      var i := 0;
      while tasks[i] != t
        invariant 0 <= i < |tasks| && t in tasks[i..]
        decreases |tasks| - i
      {
        i := i + 1;
      }
      tasks := tasks[..i] + tasks[i + 1..];
    }

    /**
     A tick of the stop timer: groups that have vanished are forgotten, tasks that outstayed the patience are
     killed, tasks of which nothing is left go, and the timer stops when nothing remains to be stopped.
     */
    method AdvanceStop(vanished: set<nat>)
      requires Valid()
      modifies this, tasks
      ensures Valid()
      ensures forall t :: t in tasks <==> t in old(tasks) && !t.Gone()
      ensures forall t :: t in old(tasks) ==> t.Swept(now, vanished)
      ensures now == old(now) && (stopTimer <==> old(stopTimer) && exists t :: t in tasks && t.clock.Some?)
    {
      var all, pending := tasks, false;
      for i := 0 to |all|
        invariant Valid() && all == old(tasks) && now == old(now) && stopTimer == old(stopTimer)
        invariant forall j :: i <= j < |all| ==> all[j] in tasks && all[j].Untouched()
        invariant forall t :: t in tasks ==> t in all
        invariant forall j :: 0 <= j < i ==> all[j].Swept(now, vanished) && (all[j] in tasks <==> !all[j].Gone())
        invariant pending <==> exists j :: 0 <= j < i && all[j] in tasks && all[j].clock.Some?
      {
        var remains := SweepOne(all[i], vanished);
        pending := pending || remains;
      }
      StopWaiting(pending);
    }

    /** The timer stops when nothing remains to be stopped. */
    method StopWaiting(pending: bool)
      requires Valid() && forall t :: t in tasks && t.clock.Some? ==> pending
      modifies this`stopTimer
      ensures Valid() && stopTimer == (old(stopTimer) && pending)
    {
      if !pending { stopTimer := false; }
    }

    method SweepOne(t: Task, vanished: set<nat>) returns (remains: bool)
      requires Valid() && t in tasks
      modifies this`tasks, this`active, this`exitCode, this`trouble, t`group, t`sent
      ensures Valid() && t.Swept(now, vanished)
      ensures forall u :: u in tasks <==> u in old(tasks) && (u != t || !t.Gone())
      ensures remains <==> !t.Gone() && t.clock.Some?
    {
      t.Sweep(now, vanished, t == active);
      if t.done && t.group == 0 && t.process == Ended {
        Complete(t);
        return false;
      }
      return t.clock.Some?;
    }
  }

  /** Everything that can happen to the tasks, in any order; processes report on the task at an index. */
  datatype Input =
    | Launch(id: Id, routed: bool, memory: Option<nat>, platformFits: bool, programFits: bool)
    | Activation(shown: Id)
    | ToBackground
    | StopForeground
    | StopEverything
    | ForcedKill(killed: Option<Id>)
    | CloseWanted(closing: Option<Id>)
    | HasStarted(started: nat, pid: nat)
    | HasNotStarted(unstarted: nat)
    | HasExited(exited: nat, code: int, crashed: bool)
    | Tick(elapsed: nat, vanished: set<nat>)

  method Handle(a: Applications, input: Input)
    requires a.Valid()
    modifies a, a.Members()
    ensures a.Valid() && fresh(a.Members() - old(a.Members()))
    ensures input.Tick? ==> a.now == old(a.now) + input.elapsed
  {
    match input
    case Launch(id, routed, memory, platformFits, programFits) =>
      var _ := a.LaunchPrepared(id, routed, memory, platformFits, programFits);
    case Activation(id) => var _ := a.Activate(id);
    case ToBackground => a.Background();
    case StopForeground => a.Stop();
    case StopEverything => a.StopAll();
    case ForcedKill(id) => a.ForceKill(id);
    case CloseWanted(id) => var _ := a.RequestClose(id);
    case HasStarted(i, pid) =>
      if i < |a.tasks| && a.tasks[i].process == Starting && pid > 1 { a.Started(a.tasks[i], pid); }
    case HasNotStarted(i) => if i < |a.tasks| && a.tasks[i].process == Starting { a.FailedToStart(a.tasks[i]); }
    case HasExited(i, code, crashed) =>
      if i < |a.tasks| && a.tasks[i].process == Alive { a.Exited(a.tasks[i], code, crashed); }
    case Tick(elapsed, vanished) =>
      a.now := a.now + elapsed;
      if a.stopTimer { a.AdvanceStop(vanished); }
  }

  /**
   In every state that any sequence of inputs leads to: at most four tasks with distinct names and input slots, the
   foreground task among them; a started task that is wanted is halted exactly when it is in the background and no
   utility; any other started task is halted exactly when it is paused and was told so; the foreground task never is,
   nor a utility, which was never told to stop; a task that has not started has received nothing; and whatever is
   to end has the stop timer running.
   */
  method Run(inputs: seq<Input>) returns (a: Applications)
    ensures a.Valid()
    ensures |a.tasks| <= 4 && (a.active != null ==> a.active in a.tasks)
    ensures forall i, j :: 0 <= i < j < |a.tasks| ==>
              a.tasks[i].id != a.tasks[j].id && a.tasks[i].slot != a.tasks[j].slot
    ensures forall t :: t in a.tasks ==> t.slot < 4 && (t.process == Starting ==> t.sent == [])
    ensures forall t :: t in a.tasks && !t.stopping && !t.done ==> (t.paused <==> t != a.active && !Utility(t.id))
    ensures forall t :: t in a.tasks && !t.stopping && !t.done && t.group > 1 ==>
              (Halted(t.sent) <==> t != a.active && !Utility(t.id))
    ensures forall t :: t in a.tasks && t.group > 1 ==> (Halted(t.sent) <==> t.paused && Stop in t.sent)
    ensures forall t :: t in a.tasks && (t == a.active || Utility(t.id)) ==> !t.paused
    ensures forall t :: t in a.tasks && Utility(t.id) ==> Stop !in t.sent
    ensures forall t :: t in a.tasks && (t.stopping || t.done) ==> t.clock.Some? && a.stopTimer
  {
    a := new Applications();
    for i := 0 to |inputs|
      invariant a.Valid() && fresh(a) && fresh(a.Members())
    {
      Handle(a, inputs[i]);
    }
  }
}
