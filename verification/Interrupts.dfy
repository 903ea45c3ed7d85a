/** The UIO interrupt protocol: one application thread and one interrupt thread
    over an enable flag, an exit flag and a semaphore. Every step is one access
    to shared state; a run is any interleaving. */
module Interrupts {

  /** The application inside `fpga_enable_interrupt` or `fpga_platform_cleanup`. */
  datatype App =
    | Idle
    | EnableSet                // flag written, semaphore value not read yet
    | EnableRead(value: nat)   // will post if the value was 0
    | CleanupSet               // exit flag written and unlocked, not posted yet
    | Joining
    | Joined

  /** The interrupt thread inside its loop. */
  datatype Thread =
    | Top                      // before the locked read of the exit flag
    | Check(exit: bool)        // flag read, enable flag not read yet
    | SemWait
    | Poll                     // device open, waiting for an interrupt or the timeout
    | Exited

  /** `waits` counts the semaphore waits completed since the exit flag was set. */
  datatype State = State(enable: bool, exit: bool, sem: nat, app: App, thr: Thread, waits: nat)

  datatype Step =
    | Enable | Disable | Cleanup   // the application starts an operation
    | AppStep                      // and carries on with it
    | ThreadStep(ok: bool)         // `ok`: opening, arming and the callback check succeed

  /** After `uio_create_interrupt_thread`. */
  const INITIAL: State := State(false, false, 0, Idle, Top, 0)

  function Post(s: State, value: nat): State {
    if value <= 0 then s.(sem := s.sem + 1) else s
  }

  /** Cleanup reads the semaphore only if the unlock failed, so its copy of the
      value is still 0 and it posts whatever the semaphore's value. */
  function AppNext(s: State): State {
    match s.app
    case EnableSet => s.(app := EnableRead(s.sem))
    case EnableRead(v) => Post(s, v).(app := Idle)
    case CleanupSet => Post(s, 0).(app := Joining)
    case Joining => if s.thr.Exited? then s.(app := Joined) else s
    case _ => s
  }

  function ThreadNext(s: State, ok: bool): State {
    match s.thr
    case Top => s.(thr := Check(s.exit))
    case Check(exit) =>
      if exit then s.(thr := Exited)
      else if s.enable then s.(thr := Poll)
      else s.(thr := SemWait)
    case SemWait =>
      if s.sem > 0 then s.(sem := s.sem - 1, thr := Top, waits := if s.exit then s.waits + 1 else 0) else s
    case Poll => s.(thr := if ok then Top else Exited)
    case Exited => s
  }

  function Next(s: State, step: Step): State {
    match step
    case Enable => if s.app.Idle? then s.(enable := true, app := EnableSet) else s
    case Disable => if s.app.Idle? then s.(enable := false) else s
    case Cleanup => if s.app.Idle? then s.(exit := true, app := CleanupSet) else s
    case AppStep => AppNext(s)
    case ThreadStep(ok) => ThreadNext(s, ok)
  }

  function Exec(s: State, run: seq<Step>): State
    decreases |run|
  {
    if run == [] then s else Exec(Next(s, run[0]), run[1..])
  }

  /** The thread may still wait on the semaphore before it sees the exit flag. */
  predicate MayWait(t: Thread) { t == SemWait || t == Check(false) }

  predicate Inv(s: State) {
    && s.sem <= (if Posted(s) then 2 else 1)
    && (s.app.EnableRead? && s.app.value == 0 ==> s.sem == 0)
    && (s.exit <==> s.app.CleanupSet? || Posted(s))
    && (s.thr == Check(true) ==> s.exit)
    && (s.enable && s.thr.SemWait? && !s.app.EnableSet? && !(s.app.EnableRead? && s.app.value == 0) ==>
          s.sem >= 1)
    && (Posted(s) && MayWait(s.thr) ==> s.sem >= 1)
    && (s.exit && MayWait(s.thr) ==> s.waits == 0)
    && (!s.exit ==> s.waits == 0)
    && s.waits <= 1
    && (s.app.Joined? ==> s.thr.Exited?)
  }

  /** Cleanup has posted. */
  predicate Posted(s: State) { s.app.Joining? || s.app.Joined? }

  lemma NextInv(s: State, step: Step)
    requires Inv(s)
    ensures Inv(Next(s, step))
  {
  }

  lemma {:induction false} ExecInv(s: State, run: seq<Step>)
    requires Inv(s)
    ensures Inv(Exec(s, run))
    decreases |run|
  {
    if run == [] {
    } else {
      NextInv(s, run[0]);
      ExecInv(Next(s, run[0]), run[1..]);
    }
  }

  /** No wake-up is lost: with interrupts enabled, a thread at its semaphore
      wait finds the semaphore positive or the enabler about to post. The
      semaphore does not exceed 1 before cleanup, nor 2 afterwards. */
  lemma NoLostWakeUp(run: seq<Step>)
    ensures var s := Exec(INITIAL, run);
            && s.sem <= (if s.exit then 2 else 1)
            && (s.enable && s.thr.SemWait? && s.sem == 0 ==>
                  s.app.EnableSet? || (s.app.EnableRead? && s.app.value == 0))
  {
    ExecInv(INITIAL, run);
  }

  function Threads(oks: seq<bool>): (r: seq<Step>)
    ensures |r| == |oks|
  {
    seq(|oks|, i requires 0 <= i < |oks| => ThreadStep(oks[i]))
  }

  lemma ThreadsCons(ok: bool, oks: seq<bool>)
    ensures Threads([ok] + oks) == [ThreadStep(ok)] + Threads(oks)
  {
  }

  /** How many of its own steps an enabled thread is away from polling. */
  function Distance(t: Thread): nat {
    match t
    case Poll => 0
    case Check(_) => 1
    case Top => 2
    case SemWait => 3
    case Exited => 0
  }

  /** An enabled thread polls the device within three of its own steps. */
  lemma EnabledReaches(run: seq<Step>)
    requires var s := Exec(INITIAL, run); s.app.Idle? && s.enable && !s.thr.Exited?
    ensures var s := Exec(INITIAL, run);
            && Distance(s.thr) <= 3
            && Exec(s, Threads(seq(Distance(s.thr), i => true))).thr == Poll
  {
    ExecInv(INITIAL, run);
    Reaches(Exec(INITIAL, run));
  }

  /** Enabling takes effect: whatever happened before, once `fpga_enable_interrupt`
      has returned the flag is set, and a thread that has not exited polls the
      device within three of its own steps. */
  lemma EnabledThreadPolls(before: seq<Step>, first: seq<bool>, second: seq<bool>)
    requires Exec(INITIAL, before).app.Idle?
    ensures var s := Exec(INITIAL, before + EnableCall(first, second));
            && s.enable && s.app.Idle? && Distance(s.thr) <= 3
            && (!s.thr.Exited? ==> Exec(s, Threads(seq(Distance(s.thr), i => true))).thr == Poll)
  {
    var s := Exec(INITIAL, before);
    ExecAppend(INITIAL, before, EnableCall(first, second));
    EnableCallIs(s, first, second);
    ThreadsKeepApp(Next(s, Enable), first);
    ThreadsKeepApp(AppNext(Exec(Next(s, Enable), Threads(first))), second);
    if !Exec(INITIAL, before + EnableCall(first, second)).thr.Exited? {
      EnabledReaches(before + EnableCall(first, second));
    }
  }

  lemma {:induction false} ThreadsKeepApp(s: State, oks: seq<bool>)
    ensures var r := Exec(s, Threads(oks));
            r.app == s.app && r.enable == s.enable && r.exit == s.exit
    decreases |oks|
  {
    if oks == [] {
    } else {
      assert oks == [oks[0]] + oks[1..];
      ThreadsCons(oks[0], oks[1..]);
      assert Threads(oks)[1..] == Threads(oks[1..]);
      ThreadsKeepApp(ThreadNext(s, oks[0]), oks[1..]);
    }
  }

  /** Disabling takes effect: until the next enable the flag stays clear and no
      step of the thread starts a poll. */
  lemma DisabledNeverPolls(before: seq<Step>, run: seq<Step>, step: Step)
    requires Exec(INITIAL, before).app.Idle? && Enable !in run && step != Enable
    ensures var s := Exec(Next(Exec(INITIAL, before), Disable), run);
            && !s.enable && !Next(s, step).enable
            && (s.thr != Poll ==> Next(s, step).thr != Poll)
  {
    StaysDisabled(Next(Exec(INITIAL, before), Disable), run);
  }

  lemma {:induction false} StaysDisabled(s: State, run: seq<Step>)
    requires !s.enable && Enable !in run
    ensures !Exec(s, run).enable
    decreases |run|
  {
    if run == [] {
    } else {
      assert run[0] in run && Enable !in run[1..];
      StaysDisabled(Next(s, run[0]), run[1..]);
    }
  }

  /** The thread ends only for the exit flag or a failure: before cleanup and as
      long as opening, arming and the callback succeed, it keeps running. */
  lemma ThreadSurvives(run: seq<Step>)
    requires ThreadStep(false) !in run && !Exec(INITIAL, run).exit
    ensures !Exec(INITIAL, run).thr.Exited?
  {
    Survives(INITIAL, run);
  }

  lemma {:induction false} Survives(s: State, run: seq<Step>)
    requires Inv(s) && !s.thr.Exited? && ThreadStep(false) !in run && !Exec(s, run).exit
    ensures !Exec(s, run).thr.Exited?
    decreases |run|
  {
    if run == [] {
    } else {
      assert run[0] in run;
      if s.exit { ExitStays(s, run); }
      NextInv(s, run[0]);
      Survives(Next(s, run[0]), run[1..]);
    }
  }

  lemma {:induction false} ExitStays(s: State, run: seq<Step>)
    requires s.exit
    ensures Exec(s, run).exit
    decreases |run|
  {
    if run == [] {
    } else {
      ExitStays(Next(s, run[0]), run[1..]);
    }
  }

  lemma {:induction false} Reaches(s: State)
    requires Inv(s) && s.app.Idle? && s.enable && !s.thr.Exited?
    ensures Exec(s, Threads(seq(Distance(s.thr), i => true))).thr == Poll
    decreases Distance(s.thr)
  {
    var n := Distance(s.thr);
    if n == 0 {
    } else {
      var s1 := ThreadNext(s, true);
      NextInv(s, ThreadStep(true));
      assert seq(n, i => true) == [true] + seq(n - 1, i => true);
      ThreadsCons(true, seq(n - 1, i => true));
      Reaches(s1);
    }
  }

  /** Steps the thread has left once it can no longer miss the exit flag. */
  function Rank(t: Thread): nat {
    match t
    case Check(exit) => if exit then 1 else 4
    case SemWait => 3
    case Poll => 3
    case Top => 2
    case Exited => 0
  }

  function ThreadSteps(run: seq<Step>): nat {
    if run == [] then 0 else (if run[0].ThreadStep? then 1 else 0) + ThreadSteps(run[1..])
  }

  /** From any state in which cleanup waits in the join, every run with four
      thread steps ends with the thread gone: it never blocks on the semaphore. */
  lemma {:induction false} JoinTerminates(s: State, run: seq<Step>)
    requires Inv(s) && Posted(s) && ThreadSteps(run) >= Rank(s.thr)
    ensures Exec(s, run).thr == Exited
    decreases |run|
  {
    if run == [] {
    } else {
      NextInv(s, run[0]);
      JoinTerminates(Next(s, run[0]), run[1..]);
    }
  }

  /** Cleanup after a completed enable: the semaphore does reach 2. */
  lemma CleanupPostsAgain()
    ensures var s := Exec(INITIAL, [Enable, AppStep, AppStep, Cleanup, AppStep]);
            s.app.Joining? && s.sem == 2
  {
    var run := [Enable, AppStep, AppStep, Cleanup];
    ExecThen(INITIAL, run, AppStep);
    assert run + [AppStep] == [Enable, AppStep, AppStep, Cleanup, AppStep];
  }

  function AppSteps(run: seq<Step>): nat {
    if run == [] then 0 else (if run[0].AppStep? then 1 else 0) + AppSteps(run[1..])
  }

  /** Cleanup itself never waits before the join, and the join is final. */
  lemma {:induction false} CleanupReachesJoin(s: State, run: seq<Step>)
    requires s.app.CleanupSet? || Posted(s)
    requires s.app.CleanupSet? ==> AppSteps(run) >= 1
    ensures Posted(Exec(s, run))
    decreases |run|
  {
    if run == [] {
    } else {
      CleanupReachesJoin(Next(s, run[0]), run[1..]);
    }
  }

  /** Shutdown: wherever the interleaving stood when cleanup began, the thread
      completes at most one more semaphore wait. After one further step of
      cleanup it can no longer block on the semaphore, and after four further
      steps of its own it has exited, so the join returns. */
  lemma ShutdownTerminates(before: seq<Step>, posting: seq<Step>, joining: seq<Step>)
    requires Exec(INITIAL, before).app.Idle?
    requires AppSteps(posting) >= 1 && ThreadSteps(joining) >= 4
    ensures var s1 := Exec(Next(Exec(INITIAL, before), Cleanup), posting);
            var s2 := Exec(s1, joining);
            && (s1.thr.SemWait? ==> s1.sem > 0)
            && Taken(Next(Exec(INITIAL, before), Cleanup), posting + joining) <= 1
            && s2.thr.Exited? && Next(s2, AppStep).app.Joined?
  {
    ExecInv(INITIAL, before);
    var s0 := Next(Exec(INITIAL, before), Cleanup);
    NextInv(Exec(INITIAL, before), Cleanup);
    ExecInv(s0, posting);
    var s1 := Exec(s0, posting);
    CleanupReachesJoin(s0, posting);
    ExecInv(s1, joining);
    JoinTerminates(s1, joining);
    CleanupReachesJoin(s1, joining);
    ExecAppend(s0, posting, joining);
    WaitsTaken(s0, posting + joining);
  }

  /** How many semaphore waits a run completes. */
  function Taken(s: State, run: seq<Step>): nat
    decreases |run|
  {
    if run == [] then 0
    else (if s.thr.SemWait? && !Next(s, run[0]).thr.SemWait? then 1 else 0) + Taken(Next(s, run[0]), run[1..])
  }

  /** How many times it posts: an enable that read 0, or a cleanup. */
  function Posts(s: State, run: seq<Step>): nat
    decreases |run|
  {
    if run == [] then 0
    else (if run[0].AppStep? && (s.app == EnableRead(0) || s.app == CleanupSet) then 1 else 0)
         + Posts(Next(s, run[0]), run[1..])
  }

  lemma {:induction false} WaitsTaken(s: State, run: seq<Step>)
    requires s.exit
    ensures Exec(s, run).waits == s.waits + Taken(s, run)
    decreases |run|
  {
    if run == [] {
    } else {
      WaitsTaken(Next(s, run[0]), run[1..]);
    }
  }

  /** Every completed wait has consumed one post. */
  lemma SemaphoreCounts(run: seq<Step>)
    ensures Exec(INITIAL, run).sem + Taken(INITIAL, run) == Posts(INITIAL, run)
  {
    Counts(INITIAL, run);
  }

  lemma {:induction false} Counts(s: State, run: seq<Step>)
    ensures Exec(s, run).sem + Taken(s, run) == s.sem + Posts(s, run)
    decreases |run|
  {
    if run == [] {
    } else {
      Counts(Next(s, run[0]), run[1..]);
    }
  }

  // ---------- the calls themselves ----------

  lemma {:induction false} ExecAppend(s: State, a: seq<Step>, b: seq<Step>)
    ensures Exec(s, a + b) == Exec(Exec(s, a), b)
    decreases |a|
  {
    if a == [] {
      assert a + b == b;
    } else {
      assert (a + b)[1..] == a[1..] + b;
      ExecAppend(Next(s, a[0]), a[1..], b);
    }
  }

  /** The run continues with one step. */
  lemma ExecThen(s: State, run: seq<Step>, step: Step)
    ensures Exec(s, run + [step]) == Next(Exec(s, run), step)
  {
    ExecAppend(s, run, [step]);
    assert [step][1..] == [];
  }

  /** Enabling with its two further steps, the thread running in between. */
  function EnableCall(first: seq<bool>, second: seq<bool>): seq<Step> {
    [Enable] + Threads(first) + [AppStep] + Threads(second) + [AppStep]
  }

  lemma EnableCallIs(s: State, first: seq<bool>, second: seq<bool>)
    ensures var s1 := Exec(Next(s, Enable), Threads(first));
            Exec(s, EnableCall(first, second)) == AppNext(Exec(AppNext(s1), Threads(second)))
  {
    var r1 := [Enable] + Threads(first);
    var r2 := r1 + [AppStep] + Threads(second);
    assert r1[1..] == Threads(first);
    ExecThen(s, r1, AppStep);
    ExecAppend(s, r1 + [AppStep], Threads(second));
    ExecThen(s, r2, AppStep);
  }

  /** The shared variables and the interrupt thread, which may run before every
      access that the application makes. */
  class Platform {
    var interfaces: nat
    var interruptEnable: bool
    var exitFlag: bool
    var semaphore: nat
    var thr: Thread
    ghost var waits: nat

    ghost function Abs(app: App): State
      reads this
    {
      State(interruptEnable, exitFlag, semaphore, app, thr, waits)
    }

    /** One access of the interrupt thread's loop. */
    method RunThread(ok: bool, ghost app: App)
      modifies this`semaphore, this`thr, this`waits
      ensures Abs(app) == ThreadNext(old(Abs(app)), ok)
      ensures thr == Poll && old(thr) != Poll ==> interruptEnable
      ensures semaphore == old(semaphore) - if old(thr) == SemWait && thr != SemWait then 1 else 0
      ensures thr == Exited && old(thr) != Exited ==> old(thr) == Check(true) || !ok
    {
      match thr
      case Top => thr := Check(exitFlag);
      case Check(exit) => thr := if exit then Exited else if interruptEnable then Poll else SemWait;
      case SemWait =>
        if semaphore > 0 {
          semaphore, thr, waits := semaphore - 1, Top, if exitFlag then waits + 1 else 0;
        }
      case Poll => thr := if ok then Top else Exited;
      case Exited =>
    }

    /** Some steps of the interrupt thread. */
    method Interfere(ghost app: App) returns (ghost oks: seq<bool>)
      modifies this`semaphore, this`thr, this`waits
      ensures Abs(app) == Exec(old(Abs(app)), Threads(oks))
    {
      oks := [];
      var n: nat :| 0 <= n;
      for i := 0 to n
        invariant Abs(app) == Exec(old(Abs(app)), Threads(oks))
      {
        var ok: bool := *;
        RunThread(ok, app);
        assert Threads(oks + [ok]) == Threads(oks) + [ThreadStep(ok)];
        ExecThen(old(Abs(app)), Threads(oks), ThreadStep(ok));
        oks := oks + [ok];
      }
    }

    /** `fpga_enable_interrupt`; only interface 0 exists */
    method EnableInterrupt(handle: int) returns (ret: int, ghost first: seq<bool>, ghost second: seq<bool>)
      requires interfaces <= 1
      modifies this`interruptEnable, this`semaphore, this`thr, this`waits
      ensures ret == if 0 <= handle < interfaces then 0 else -1
      ensures interruptEnable == (ret == 0 || old(interruptEnable))
      ensures Abs(Idle) == if ret == 0 then Exec(old(Abs(Idle)), EnableCall(first, second)) else old(Abs(Idle))
    {
      ret, first, second := -1, [], [];
      if 0 <= handle < interfaces {
        interruptEnable := true;
        first := Interfere(EnableSet);
        var value := semaphore;
        second := Interfere(EnableRead(value));
        if value <= 0 {
          semaphore := semaphore + 1;
        }
        EnableCallIs(old(Abs(Idle)), first, second);
        ret := 0;
      }
    }

    /** `fpga_disable_interrupt` */
    method DisableInterrupt(handle: int) returns (ret: int)
      requires interfaces <= 1
      modifies this`interruptEnable
      ensures ret == if 0 <= handle < interfaces then 0 else -1
      ensures interruptEnable == (ret != 0 && old(interruptEnable))
      ensures Abs(Idle) == if ret == 0 then Next(old(Abs(Idle)), Disable) else old(Abs(Idle))
    {
      ret := -1;
      if 0 <= handle < interfaces {
        interruptEnable := false;
        ret := 0;
      }
    }

    /** `fpga_platform_cleanup` up to its join; its copy of the semaphore's value
        is never filled in, so it always posts. */
    method StopThread() returns (ghost oks: seq<bool>)
      modifies this`exitFlag, this`semaphore, this`thr, this`waits
      ensures exitFlag && semaphore > 0
      ensures Abs(Joining) == Exec(old(Abs(Idle)), [Cleanup] + Threads(oks) + [AppStep])
    {
      exitFlag := true;
      oks := Interfere(CleanupSet);
      var value := 0;
      if value <= 0 {
        semaphore := semaphore + 1;
      }
      ExecThen(old(Abs(Idle)), [Cleanup] + Threads(oks), AppStep);
      assert ([Cleanup] + Threads(oks))[1..] == Threads(oks);
    }
  }
}
