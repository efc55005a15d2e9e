/**
 Unloading the kernel module while system calls are served. The handlers of the sys_enter tracepoint, the writers of
 the controller file and `diagnosis_exit` interleave in any way, one access to a shared variable at a time.
 */
module Unload {
  type Tid = nat

  /** Where a handler is in `diag_cb_sys_enter`: only `Dispatching` calls into a subsystem. */
  datatype Handler = Entered | Counted | Dispatching | Released

  /** Where a writer is in `controller_file_write`: an activate or deactivate, `syscall on` or `syscall off`. */
  datatype Writer =
    | Waiting | Holding
    | OnStart | OnChecked | OnRegistered
    | OffStart | OffChecked | OffUnregistered

  datatype Holder = Free | ByHandler(tid: Tid) | ByWriter(wid: Tid)

  /** Where `diagnosis_exit` is: each phase names what has just been done. */
  datatype Exit =
    | Running | FlagSeen | FlagSeenAgain | Unregistered | Unhooked | ProcGone | InGrace | GraceOver | Drained

  datatype State = State(
    registered: bool,            // the probe is on the tracepoint
    hooked: bool,                // sys_enter_hooked
    running: int,                // diag_nr_running
    sem: Holder,                 // controller_sem
    handlers: map<Tid, Handler>, // the handlers on their way
    writers: map<Tid, Writer>,   // the writers on their way
    exit: Exit,
    awaited: set<Tid>            // the handlers the grace period still waits for
  )

  const INITIAL := State(false, false, 0, Free, map[], map[], Running, {})

  datatype Step =
    // a system call: the tracepoint calls the probe, which returns at once, or counts, takes the semaphore, and so on
    | Enter(t: Tid) | Ignore(t: Tid) | Count(t: Tid) | Down(t: Tid) | Up(t: Tid) | Finish(t: Tid)
    // a write to the controller file
    | Write(w: Tid, first: Writer) | WriterDown(w: Tid) | WriterUp(w: Tid)
    | OnCheck(w: Tid) | Register(w: Tid) | SetFlag(w: Tid)
    | OffCheck(w: Tid) | Unregister(w: Tid) | ClearFlag(w: Tid)
    // diagnosis_exit, which reads the flag itself and once more in diag_unhook_sys_enter
    | ExitCheck | ExitRecheck | ExitUnregister | ExitClear | RemoveProc | GraceStart | GraceEnd | DrainCheck

  predicate HandlerAt(s: State, t: Tid, h: Handler) { t in s.handlers && s.handlers[t] == h }

  predicate WriterAt(s: State, w: Tid, at: Writer) { w in s.writers && s.writers[w] == at }

  /** The handlers that have not counted themselves yet. */
  function Uncounted(s: State): set<Tid> { set t | t in s.handlers && s.handlers[t] == Entered }

  predicate ProcIsGone(e: Exit) { e == ProcGone || e == InGrace || e == GraceOver || e == Drained }

  predicate Enabled(s: State, step: Step) {
    match step
    case Enter(t) => s.registered && t !in s.handlers
    case Ignore(t) => HandlerAt(s, t, Entered)
    case Count(t) => HandlerAt(s, t, Entered)
    case Down(t) => HandlerAt(s, t, Counted) && s.sem == Free
    case Up(t) => HandlerAt(s, t, Dispatching)
    case Finish(t) => HandlerAt(s, t, Released)
    case Write(w, first) =>
      w !in s.writers && (first == Waiting || first == OnStart || first == OffStart)
      && !ProcIsGone(s.exit)
    case WriterDown(w) => WriterAt(s, w, Waiting) && s.sem == Free
    case WriterUp(w) => WriterAt(s, w, Holding)
    case OnCheck(w) => WriterAt(s, w, OnStart)
    case Register(w) => WriterAt(s, w, OnChecked)
    case SetFlag(w) => WriterAt(s, w, OnRegistered)
    case OffCheck(w) => WriterAt(s, w, OffStart)
    case Unregister(w) => WriterAt(s, w, OffChecked)
    case ClearFlag(w) => WriterAt(s, w, OffUnregistered)
    case ExitCheck => s.exit == Running
    case ExitRecheck => s.exit == FlagSeen
    case ExitUnregister => s.exit == FlagSeenAgain
    case ExitClear => s.exit == Unregistered
    case RemoveProc => s.exit == Unhooked && s.writers == map[] // removing a proc file waits for its writers
    case GraceStart => s.exit == ProcGone
    case GraceEnd => s.exit == InGrace && s.awaited == {}
    case DrainCheck => s.exit == GraceOver && s.running <= 0
  }

  /** Past its counting or its return, a handler no longer holds up the grace period. */
  function Apply(s: State, step: Step): State
    requires Enabled(s, step)
  {
    match step
    case Enter(t) => s.(handlers := s.handlers[t := Entered])
    case Ignore(t) => s.(handlers := s.handlers - {t}, awaited := s.awaited - {t})
    case Count(t) => s.(handlers := s.handlers[t := Counted], running := s.running + 1, awaited := s.awaited - {t})
    case Down(t) => s.(handlers := s.handlers[t := Dispatching], sem := ByHandler(t))
    case Up(t) => s.(handlers := s.handlers[t := Released], sem := Free)
    case Finish(t) => s.(handlers := s.handlers - {t}, running := s.running - 1)
    case Write(w, first) => s.(writers := s.writers[w := first])
    case WriterDown(w) => s.(writers := s.writers[w := Holding], sem := ByWriter(w))
    case WriterUp(w) => s.(writers := s.writers - {w}, sem := Free)
    case OnCheck(w) => s.(writers := if s.hooked then s.writers - {w} else s.writers[w := OnChecked])
    case Register(w) => s.(writers := s.writers[w := OnRegistered], registered := true)
    case SetFlag(w) => s.(writers := s.writers - {w}, hooked := true)
    case OffCheck(w) => s.(writers := if s.hooked then s.writers[w := OffChecked] else s.writers - {w})
    case Unregister(w) => s.(writers := s.writers[w := OffUnregistered], registered := false)
    case ClearFlag(w) => s.(writers := s.writers - {w}, hooked := false)
    case ExitCheck => s.(exit := if s.hooked then FlagSeen else Unhooked)
    case ExitRecheck => s.(exit := if s.hooked then FlagSeenAgain else Unhooked)
    case ExitUnregister => s.(exit := Unregistered, registered := false)
    case ExitClear => s.(exit := Unhooked, hooked := false)
    case RemoveProc => s.(exit := ProcGone)
    case GraceStart => s.(exit := InGrace, awaited := Uncounted(s))
    case GraceEnd => s.(exit := GraceOver)
    case DrainCheck => s.(exit := Drained)
  }

  /** A run: the steps, taken one after the other, lead from one state to the other. */
  ghost predicate Leads(s: State, path: seq<Step>, u: State)
    decreases |path|
  {
    if path == [] then u == s else Enabled(s, path[0]) && Leads(Apply(s, path[0]), path[1..], u)
  }

  /** Some run leads from the loaded module to the state. */
  ghost predicate Reached(s: State) { exists path :: Leads(INITIAL, path, s) }

  // ---- what every step keeps ----

  /** The handlers between the increment and the decrement. */
  function InFlight(s: State): set<Tid> { Past(s.handlers) }

  function Past(handlers: map<Tid, Handler>): set<Tid> { set t | t in handlers && handlers[t] != Entered }

  lemma PastWithout(handlers: map<Tid, Handler>, t: Tid)
    requires t in handlers && handlers[t] != Entered
    ensures |Past(handlers - {t})| == |Past(handlers)| - 1
  {
    assert Past(handlers) == Past(handlers - {t}) + {t};
  }

  lemma PastWith(handlers: map<Tid, Handler>, t: Tid, h: Handler)
    requires t in handlers && h != Entered
    ensures |Past(handlers[t := h])| == |Past(handlers)| + if handlers[t] == Entered then 1 else 0
  {
    if handlers[t] == Entered {
      assert Past(handlers[t := h]) == Past(handlers) + {t};
    } else {
      assert Past(handlers[t := h]) == Past(handlers);
    }
  }

  /** The counter counts the handlers in flight, and the semaphore is held by exactly the one that dispatches. */
  ghost predicate Consistent(s: State) {
    && s.running == |InFlight(s)|
    && (forall t :: HandlerAt(s, t, Dispatching) <==> s.sem == ByHandler(t))
    && (forall w :: WriterAt(s, w, Holding) <==> s.sem == ByWriter(w))
  }

  predicate IsHandlerStep(step: Step) {
    step.Enter? || step.Ignore? || step.Count? || step.Down? || step.Up? || step.Finish?
  }

  predicate IsExitStep(step: Step) {
    step.ExitCheck? || step.ExitRecheck? || step.ExitUnregister? || step.ExitClear? || step.RemoveProc?
      || step.GraceStart?
    || step.GraceEnd? || step.DrainCheck?
  }

  lemma HandlerKeepsCount(s: State, step: Step)
    requires s.running == |InFlight(s)| && Enabled(s, step) && IsHandlerStep(step)
    ensures Apply(s, step).running == |InFlight(Apply(s, step))|
  {
    hide Past;
    match step
    case Count(t) => PastWith(s.handlers, t, Counted);
    case Down(t) => PastWith(s.handlers, t, Dispatching);
    case Up(t) => PastWith(s.handlers, t, Released);
    case Finish(t) => PastWithout(s.handlers, t);
    case Enter(t) => EnteredIsNotPast(s.handlers, t);
    case Ignore(t) => EnteredIsNotPast(s.handlers - {t}, t);
                      assert s.handlers == (s.handlers - {t})[t := Entered];
  }

  lemma EnteredIsNotPast(handlers: map<Tid, Handler>, t: Tid)
    requires t !in handlers
    ensures Past(handlers[t := Entered]) == Past(handlers)
  {
  }

  lemma HandlerKeepsConsistent(s: State, step: Step)
    requires Consistent(s) && Enabled(s, step) && IsHandlerStep(step)
    ensures Consistent(Apply(s, step))
  {
    hide InFlight;
    HandlerKeepsCount(s, step);
  }

  lemma StepKeepsConsistent(s: State, step: Step)
    requires Consistent(s) && Enabled(s, step)
    ensures Consistent(Apply(s, step))
  {
    if IsHandlerStep(step) {
      HandlerKeepsConsistent(s, step);
    } else {
      assert InFlight(Apply(s, step)) == InFlight(s);
    }
  }

  lemma {:induction false} RunKeepsConsistent(s: State, path: seq<Step>, u: State)
    requires Consistent(s) && Leads(s, path, u)
    ensures Consistent(u)
    decreases |path|
  {
    if path != [] {
      StepKeepsConsistent(s, path[0]);
      RunKeepsConsistent(Apply(s, path[0]), path[1..], u);
    }
  }

  lemma ReachedIsConsistent(s: State)
    requires Reached(s)
    ensures Consistent(s)
  {
    var path :| Leads(INITIAL, path, s);
    assert InFlight(INITIAL) == {};
    RunKeepsConsistent(INITIAL, path, s);
  }

  /**
   In every state of every run, whatever is hooked and unhooked when: the counter is the number of handlers between
   increment and decrement, and at most one handler dispatches, and only while no writer holds the semaphore.
   */
  lemma CounterAndSemaphore(s: State)
    requires Reached(s)
    ensures s.running == |InFlight(s)|
    ensures forall t, u | HandlerAt(s, t, Dispatching) && HandlerAt(s, u, Dispatching) :: t == u
    ensures forall t, w | HandlerAt(s, t, Dispatching) :: !WriterAt(s, w, Holding)
  {
    ReachedIsConsistent(s);
  }

  // ---- unloading ----

  predicate Switches(w: Writer) { w != Waiting && w != Holding }

  predicate SwitchesOn(w: Writer) { w == OnStart || w == OnChecked || w == OnRegistered }

  predicate NoneSwitchesOn(s: State) { forall w | w in s.writers :: !SwitchesOn(s.writers[w]) }

  ghost predicate SomeoneAt(s: State, at: Writer) { exists w :: WriterAt(s, w, at) }

  predicate SwitchesOnStep(step: Step) { step.Write? && step.first == OnStart }

  /** The probe is off, or a `syscall off` is about to take it off, or exit will find the flag set both times. */
  ghost predicate Sound(s: State) {
    s.registered ==> SomeoneAt(s, OffChecked) || (s.hooked && !SomeoneAt(s, OffUnregistered))
  }

  /** Before exit has unregistered the probe, or has found that it need not. */
  predicate MayUnhook(e: Exit) { e == Running || e == FlagSeen || e == FlagSeenAgain }

  /** `syscall on` is not written in the run. */
  predicate NeverOn(path: seq<Step>) { forall step | step in path :: !SwitchesOnStep(step) }

  /** How far `diagnosis_exit` has come, and what can then no longer be. */
  ghost predicate Unloading(s: State) {
    && NoneSwitchesOn(s)
    && (MayUnhook(s.exit) ==> Sound(s))
    && (!MayUnhook(s.exit) && s.registered ==> SomeoneAt(s, OffChecked))
    && (ProcIsGone(s.exit) ==> s.writers == map[] && !s.registered)
    && (s.exit == InGrace ==> Uncounted(s) <= s.awaited)
    && (s.exit == GraceOver || s.exit == Drained ==> Uncounted(s) == {})
    && (s.exit == Drained ==> s.handlers == map[])
  }

  lemma HandlerKeepsUnloading(s: State, step: Step)
    requires Unloading(s) && Enabled(s, step) && IsHandlerStep(step)
    ensures Unloading(Apply(s, step))
  {
    var next := Apply(s, step);
    assert forall w, at :: WriterAt(next, w, at) == WriterAt(s, w, at);
    if ProcIsGone(s.exit) {
      assert Uncounted(next) <= Uncounted(s);
      assert step.Ignore? || step.Count? ==> Uncounted(next) == Uncounted(s) - {step.t};
    }
  }

  lemma WriterKeepsSound(s: State, step: Step)
    requires NoneSwitchesOn(s) && Enabled(s, step) && !IsHandlerStep(step) && !IsExitStep(step) && !SwitchesOnStep(step)
    ensures NoneSwitchesOn(Apply(s, step))
    ensures Apply(s, step).registered ==> s.registered
    ensures Apply(s, step).registered && SomeoneAt(s, OffChecked) ==> SomeoneAt(Apply(s, step), OffChecked)
    ensures Sound(s) ==> Sound(Apply(s, step))
  {
    var next := Apply(s, step);
    assert !step.OnCheck? && !step.Register? && !step.SetFlag?;
    forall w, at | w != step.w ensures WriterAt(next, w, at) == WriterAt(s, w, at) {
    }
    if w :| WriterAt(s, w, OffChecked) && w != step.w {
      assert WriterAt(next, w, OffChecked);
    }
  }

  lemma WriterKeepsUnloading(s: State, step: Step)
    requires Unloading(s) && Enabled(s, step) && !IsHandlerStep(step) && !IsExitStep(step) && !SwitchesOnStep(step)
    ensures Unloading(Apply(s, step))
  {
    hide Sound, SomeoneAt;
    WriterKeepsSound(s, step);
    assert Uncounted(Apply(s, step)) == Uncounted(s);
  }

  lemma ExitKeepsUnloading(s: State, step: Step)
    requires Consistent(s) && Unloading(s) && Enabled(s, step) && IsExitStep(step)
    ensures Unloading(Apply(s, step))
  {
    var next := Apply(s, step);
    assert Uncounted(next) == Uncounted(s);
    assert forall w, at :: WriterAt(next, w, at) == WriterAt(s, w, at);
    if step.DrainCheck? {
      assert InFlight(s) == {};
      assert forall t | t in s.handlers :: t in Uncounted(s) || t in InFlight(s);
    }
  }

  lemma StepKeepsUnloading(s: State, step: Step)
    requires Consistent(s) && Unloading(s) && Enabled(s, step) && !SwitchesOnStep(step)
    ensures Unloading(Apply(s, step))
  {
    hide Unloading, Consistent, Enabled, Apply;
    if IsHandlerStep(step) {
      HandlerKeepsUnloading(s, step);
    } else if IsExitStep(step) {
      ExitKeepsUnloading(s, step);
    } else {
      WriterKeepsUnloading(s, step);
    }
  }

  lemma {:induction false} RunKeepsUnloading(s: State, path: seq<Step>, u: State)
    requires Consistent(s) && Unloading(s) && Leads(s, path, u) && NeverOn(path)
    ensures Consistent(u) && Unloading(u)
    decreases |path|
  {
    if path != [] {
      assert path[0] in path && forall step | step in path[1..] :: step in path;
      StepKeepsConsistent(s, path[0]);
      StepKeepsUnloading(s, path[0]);
      RunKeepsUnloading(Apply(s, path[0]), path[1..], u);
    }
  }

  /**
   Once exit is past unhooking, grace period and drain, no handler is anywhere between the tracepoint and its last
   decrement, so none dispatches into a subsystem that is being torn down: provided that some state before exit was
   sound, and `syscall on` was neither under way in it nor written after it.
   */
  lemma UnloadIsSafe(s: State, path: seq<Step>, u: State)
    requires Reached(s) && s.exit == Running && NoneSwitchesOn(s) && Sound(s)
    requires Leads(s, path, u) && NeverOn(path) && u.exit == Drained
    ensures u.handlers == map[] && forall t :: !HandlerAt(u, t, Dispatching)
  {
    ReachedIsConsistent(s);
    RunKeepsUnloading(s, path, u);
  }

  /**
   The drain loop makes headway: once the grace period is over no step raises the counter, and as long as it is not
   zero some handler can go on.
   */
  lemma DrainMakesHeadway(s: State, path: seq<Step>, u: State)
    requires Reached(s) && s.exit == Running && NoneSwitchesOn(s) && Sound(s)
    requires Leads(s, path, u) && NeverOn(path) && u.exit == GraceOver
    ensures forall step | Enabled(u, step) :: Apply(u, step).running <= u.running
    ensures u.running > 0 ==> exists t :: Enabled(u, Down(t)) || Enabled(u, Up(t)) || Enabled(u, Finish(t))
  {
    hide Apply, Enabled;
    ReachedIsConsistent(s);
    RunKeepsUnloading(s, path, u);
    NoMoreCounting(u);
    if u.running > 0 {
      SomeoneCanMove(u);
    }
  }

  lemma NoMoreCounting(u: State)
    requires Uncounted(u) == {}
    ensures forall step | Enabled(u, step) :: Apply(u, step).running <= u.running
  {
    assert forall t :: HandlerAt(u, t, Entered) ==> t in Uncounted(u);
  }

  lemma SomeoneCanMove(s: State)
    requires Consistent(s) && s.writers == map[] && s.running > 0
    ensures exists t :: Enabled(s, Down(t)) || Enabled(s, Up(t)) || Enabled(s, Finish(t))
  {
    var t :| t in InFlight(s);
    match s.sem
    case Free =>
      match s.handlers[t] {
        case Counted => assert Enabled(s, Down(t));
        case Dispatching => assert HandlerAt(s, t, Dispatching);
        case Released => assert Enabled(s, Finish(t));
      }
    case ByHandler(u) => assert Enabled(s, Up(u));
    case ByWriter(w) => assert false;
  }

  // ---- the flag ----

  /** No writer is switching the probe on or off. */
  predicate NoneSwitches(s: State) { forall w | w in s.writers :: !Switches(s.writers[w]) }

  /** `syscall on` and `syscall off` are written one at a time. */
  predicate OneAtATime(s: State, step: Step) {
    step.Write? && Switches(step.first) ==> NoneSwitches(s)
  }

  /** A run in which they are. */
  predicate Serial(s: State, path: seq<Step>)
    decreases |path|
  {
    path != [] ==> Enabled(s, path[0]) && OneAtATime(s, path[0]) && Serial(Apply(s, path[0]), path[1..])
  }

  /** At most one writer switches, and the flag and the probe differ only as far as it has come. */
  predicate FlagInStep(s: State) {
    && (forall v, w | v in s.writers && w in s.writers && Switches(s.writers[v]) && Switches(s.writers[w]) :: v == w)
    && (NoneSwitches(s) ==> s.registered == s.hooked)
    && forall w | w in s.writers :: FlagAgrees(s.registered, s.hooked, s.writers[w])
  }

  predicate FlagAgrees(registered: bool, hooked: bool, at: Writer) {
    match at
    case OnStart => registered == hooked
    case OnChecked => !registered && !hooked
    case OnRegistered => registered && !hooked
    case OffStart => registered == hooked
    case OffChecked => registered && hooked
    case OffUnregistered => !registered && hooked
    case _ => true
  }

  lemma WriterKeepsFlag(s: State, step: Step)
    requires FlagInStep(s) && Enabled(s, step) && OneAtATime(s, step)
    requires !IsHandlerStep(step) && !IsExitStep(step)
    ensures FlagInStep(Apply(s, step))
  {
    var next, w := Apply(s, step), step.w;
    forall v | v in next.writers && v != w ensures v in s.writers && next.writers[v] == s.writers[v] {
    }
    if w in s.writers && Switches(s.writers[w]) {
      forall v | v in s.writers && v != w ensures !Switches(s.writers[v]) {
      }
      assert forall v | v in next.writers && v != w :: !Switches(next.writers[v]);
      assert w in next.writers ==> FlagAgrees(next.registered, next.hooked, next.writers[w]);
      assert w !in next.writers ==> next.registered == next.hooked;
      assert w in next.writers ==> Switches(next.writers[w]);
      assert forall v | v in next.writers && v != w :: FlagAgrees(next.registered, next.hooked, next.writers[v]);
    } else {
      assert step.Write? || step.WriterDown? || step.WriterUp?;
      forall v | v in s.writers && v != w ensures v in next.writers {
      }
      assert NoneSwitches(next) ==> NoneSwitches(s);
    }
  }

  lemma StepKeepsFlag(s: State, step: Step)
    requires FlagInStep(s) && Enabled(s, step) && OneAtATime(s, step) && Apply(s, step).exit == Running
    ensures FlagInStep(Apply(s, step))
  {
    if !IsHandlerStep(step) && !IsExitStep(step) {
      WriterKeepsFlag(s, step);
    } else {
      FlagUntouched(s, step);
    }
  }

  lemma NeverRunsAgain(s: State, step: Step)
    requires Enabled(s, step) && Apply(s, step).exit == Running
    ensures s.exit == Running
  {
  }

  lemma FlagUntouched(s: State, step: Step)
    requires FlagInStep(s) && Enabled(s, step) && (IsHandlerStep(step) || IsExitStep(step))
    requires Apply(s, step).exit == Running
    ensures FlagInStep(Apply(s, step))
  {
    var next := Apply(s, step);
    assert next.registered == s.registered && next.hooked == s.hooked && next.writers == s.writers;
  }

  lemma {:induction false} WasRunning(s: State, path: seq<Step>, u: State)
    requires Leads(s, path, u) && u.exit == Running
    ensures s.exit == Running
    decreases |path|
  {
    if path != [] {
      WasRunning(Apply(s, path[0]), path[1..], u);
      NeverRunsAgain(s, path[0]);
    }
  }

  lemma {:induction false} SerialKeepsFlag(s: State, path: seq<Step>, u: State)
    requires FlagInStep(s) && Leads(s, path, u) && Serial(s, path) && u.exit == Running
    ensures FlagInStep(u)
    decreases |path|
  {
    hide FlagInStep, Enabled, Apply;
    if path != [] {
      WasRunning(Apply(s, path[0]), path[1..], u);
      StepKeepsFlag(s, path[0]);
      SerialKeepsFlag(Apply(s, path[0]), path[1..], u);
    }
  }

  /**
   Written one at a time, the switches keep the flag in step; so every state without `syscall on` under way is
   sound.
   */
  lemma FlagFollowsProbe(path: seq<Step>, s: State)
    requires Leads(INITIAL, path, s) && Serial(INITIAL, path) && s.exit == Running
    ensures FlagInStep(s) && (NoneSwitchesOn(s) ==> Sound(s))
  {
    SerialKeepsFlag(INITIAL, path, s);
    if NoneSwitchesOn(s) && s.registered {
      assert forall w | WriterAt(s, w, OffUnregistered) :: FlagAgrees(s.registered, s.hooked, s.writers[w]);
      if w :| w in s.writers && Switches(s.writers[w]) {
        assert FlagAgrees(s.registered, s.hooked, s.writers[w]);
      }
    }
  }

  // ---- when unloading is unsafe ----

  /** A handler dispatches although the module is drained. */
  ghost predicate Unsafe(s: State) { s.exit == Drained && exists t :: HandlerAt(s, t, Dispatching) }

  /** Some run goes on from here to an unsafe state, without `syscall on`. */
  ghost predicate CanEndUnsafe(s: State) {
    exists path, u :: Leads(s, path, u) && NeverOn(path) && Unsafe(u)
  }

  lemma StepFirst(s: State, step: Step)
    requires Enabled(s, step) && !SwitchesOnStep(step) && CanEndUnsafe(Apply(s, step))
    ensures CanEndUnsafe(s)
  {
    var path, u :| Leads(Apply(s, step), path, u) && NeverOn(path) && Unsafe(u);
    var longer := [step] + path;
    assert longer[1..] == path;
    assert Leads(s, longer, u);
    assert NeverOn(longer);
  }

  /** With the probe on and nobody about, exit past unhooking lets a handler into the drained module. */
  lemma QuietIsUnsafe(s: State)
    requires s.exit == Unhooked && s.registered && s.handlers == map[] && s.writers == map[]
    requires s.sem == Free && s.running == 0
    ensures CanEndUnsafe(s)
  {
    hide CanEndUnsafe, Uncounted;
    GraceIsUnsafe(s.(exit := ProcGone));
    StepFirst(s, RemoveProc);
  }

  lemma GraceIsUnsafe(s: State)
    requires s.exit == ProcGone && s.registered && s.handlers == map[] && s.sem == Free && s.running == 0
    ensures CanEndUnsafe(s)
  {
    assert Uncounted(s) == {};
    hide CanEndUnsafe, Uncounted;
    DrainedIsUnsafe(s.(exit := Drained, awaited := {}));
    StepFirst(s.(exit := GraceOver, awaited := {}), DrainCheck);
    StepFirst(s.(exit := InGrace, awaited := {}), GraceEnd);
    StepFirst(s, GraceStart);
  }

  lemma DrainedIsUnsafe(s: State)
    requires s.exit == Drained && s.registered && s.handlers == map[] && s.sem == Free
    ensures CanEndUnsafe(s)
  {
    var s1 := Apply(s, Enter(0));
    var s2 := Apply(s1, Count(0));
    var s3 := Apply(s2, Down(0));
    assert HandlerAt(s3, 0, Dispatching);
    assert Leads(s3, [], s3) && NeverOn([]);
    hide Apply;
    StepFirst(s2, Down(0));
    StepFirst(s1, Count(0));
    StepFirst(s, Enter(0));
  }

  /** The probe is on, no writer will take it off, and exit can find the flag clear. */
  ghost predicate Doomed(s: State) {
    && s.exit == Running && NoneSwitchesOn(s) && s.registered && !SomeoneAt(s, OffChecked)
    && (!s.hooked || SomeoneAt(s, OffUnregistered))
  }

  /** How many are on their way. */
  function Busy(s: State): nat { |s.handlers| + |s.writers| }

  /** A handler goes on to its end, when no other holds the semaphore. */
  lemma HandlerEnds(s: State, t: Tid) returns (u: State)
    requires Consistent(s) && t in s.handlers && (s.sem == Free || s.sem == ByHandler(t))
    ensures Consistent(u) && Busy(u) == Busy(s) - 1 && u.writers == s.writers
    ensures u.exit == s.exit && u.registered == s.registered && u.hooked == s.hooked
    ensures CanEndUnsafe(u) ==> CanEndUnsafe(s)
  {
    hide CanEndUnsafe, InFlight;
    if HandlerAt(s, t, Entered) {
      u := GoOn(s, Ignore(t));
    } else if HandlerAt(s, t, Counted) {
      u := GoOn(s, Down(t));
      u := DispatchEnds(u, t);
      assert s.handlers[t := Dispatching] - {t} == s.handlers - {t};
    } else {
      u := DispatchEnds(s, t);
    }
    assert u.handlers.Keys == s.handlers.Keys - {t};
  }

  lemma DispatchEnds(s: State, t: Tid) returns (u: State)
    requires Consistent(s) && (HandlerAt(s, t, Dispatching) || HandlerAt(s, t, Released))
    ensures Consistent(u) && u.handlers == s.handlers - {t} && u.writers == s.writers
    ensures u.exit == s.exit && u.registered == s.registered && u.hooked == s.hooked
    ensures CanEndUnsafe(u) ==> CanEndUnsafe(s)
  {
    hide CanEndUnsafe, InFlight, Consistent;
    if HandlerAt(s, t, Dispatching) {
      u := GoOn(s, Up(t));
      u := GoOn(u, Finish(t));
      assert s.handlers[t := Released] - {t} == s.handlers - {t};
    } else {
      u := GoOn(s, Finish(t));
    }
  }

  lemma GoOn(s: State, step: Step) returns (u: State)
    requires Consistent(s) && Enabled(s, step) && !SwitchesOnStep(step)
    ensures u == Apply(s, step) && Consistent(u) && (CanEndUnsafe(u) ==> CanEndUnsafe(s))
  {
    u := Apply(s, step);
    StepKeepsConsistent(s, step);
    if CanEndUnsafe(u) {
      StepFirst(s, step);
    }
  }

  /** A writer that does not switch the probe on, nor is about to take it off, goes on to its end. */
  lemma WriterEnds(s: State, w: Tid) returns (u: State)
    requires Consistent(s) && w in s.writers && !SwitchesOn(s.writers[w]) && s.writers[w] != OffChecked
    requires s.sem == Free || s.sem == ByWriter(w) || s.writers[w] == OffUnregistered
    requires s.hooked ==> s.writers[w] != OffStart
    ensures Consistent(u) && u.handlers == s.handlers && u.writers == s.writers - {w}
    ensures u.exit == s.exit && u.registered == s.registered
    ensures u.hooked == (s.hooked && s.writers[w] != OffUnregistered)
    ensures CanEndUnsafe(u) ==> CanEndUnsafe(s)
  {
    hide CanEndUnsafe, InFlight;
    if WriterAt(s, w, OffStart) {
      u := GoOn(s, OffCheck(w));
    } else if WriterAt(s, w, OffUnregistered) {
      u := GoOn(s, ClearFlag(w));
    } else {
      u := s;
      if WriterAt(u, w, Waiting) {
        u := GoOn(u, WriterDown(w));
      }
      u := GoOn(u, WriterUp(w));
    }
  }

  lemma OneWriterLess(s: State, w: Tid, u: State)
    requires Doomed(s) && w in s.writers && u.writers == s.writers - {w}
    requires u.exit == s.exit && u.registered == s.registered && !u.hooked
    ensures Doomed(u)
    ensures |u.writers| == |s.writers| - 1
  {
    assert forall v, at | WriterAt(u, v, at) :: WriterAt(s, v, at);
    assert u.writers.Keys == s.writers.Keys - {w};
  }

  /** Everyone about can go on to the end, and then exit does not unhook. */
  lemma {:induction false} DoomedIsUnsafe(s: State)
    requires Consistent(s) && Doomed(s)
    ensures CanEndUnsafe(s)
    decreases Busy(s)
  {
    if s.hooked || s.sem.ByWriter? || (s.sem == Free && s.handlers == map[] && s.writers != map[]) {
      var w;
      if s.hooked {
        w :| WriterAt(s, w, OffUnregistered);
      } else if s.sem.ByWriter? {
        w := s.sem.wid;
        assert WriterAt(s, w, Holding);
      } else {
        w :| w in s.writers;
      }
      assert !WriterAt(s, w, OffChecked);
      var u := WriterEnds(s, w);
      OneWriterLess(s, w, u);
      DoomedIsUnsafe(u);
    } else if s.handlers != map[] || s.sem.ByHandler? {
      var t;
      if s.sem.ByHandler? {
        t := s.sem.tid;
        assert HandlerAt(s, t, Dispatching);
      } else {
        t :| t in s.handlers;
      }
      var u := HandlerEnds(s, t);
      assert forall w, at :: WriterAt(u, w, at) == WriterAt(s, w, at);
      DoomedIsUnsafe(u);
    } else {
      assert InFlight(s) == {};
      QuietIsUnsafe(Apply(s, ExitCheck));
      StepFirst(s, ExitCheck);
    }
  }

  /**
   Exactly when unloading is safe: from a state before exit in which nobody is switching the probe on, some run without
   `syscall on` ends with a handler dispatching in the drained module, if and only if the state is not sound.
   */
  lemma UnloadIsUnsafeIff(s: State)
    requires Reached(s) && s.exit == Running && NoneSwitchesOn(s)
    ensures CanEndUnsafe(s) <==> !Sound(s)
  {
    ReachedIsConsistent(s);
    if Sound(s) {
      forall path, u | Leads(s, path, u) && NeverOn(path) ensures !Unsafe(u) {
        if u.exit == Drained {
          UnloadIsSafe(s, path, u);
        }
      }
    } else {
      DoomedIsUnsafe(s);
    }
  }

  /** In particular, when nobody switches at all, safe means that the probe is on only if the flag is. */
  lemma UnsafeWithoutFlag(s: State)
    requires Reached(s) && s.exit == Running && NoneSwitches(s)
    ensures CanEndUnsafe(s) <==> s.registered && !s.hooked
  {
    UnloadIsUnsafeIff(s);
    assert forall w, at | WriterAt(s, w, at) :: !Switches(at);
  }

  // ---- how it comes to that ----

  /** One more step of a run, to a state that differs in the probe, the flag and the writers only. */
  lemma ReachOn(s: State, step: Step, u: State)
    requires Reached(s) && Enabled(s, step) && u.writers == Apply(s, step).writers
    requires Apply(s, step) == s.(registered := u.registered, hooked := u.hooked, writers := Apply(s, step).writers)
    requires u == s.(registered := u.registered, hooked := u.hooked, writers := u.writers)
    ensures Reached(u)
  {
    var path :| Leads(INITIAL, path, s);
    LeadsStep(INITIAL, path, s, step);
  }

  lemma {:induction false} LeadsStep(s: State, path: seq<Step>, u: State, step: Step)
    requires Leads(s, path, u) && Enabled(u, step)
    ensures Leads(s, path + [step], Apply(u, step))
    decreases |path|
  {
    if path != [] {
      assert (path + [step])[1..] == path[1..] + [step];
      LeadsStep(Apply(s, path[0]), path[1..], u, step);
    } else {
      assert ([] + [step])[1..] == [];
    }
  }

  /** A state before exit in which only these writers are about. */
  function With(registered: bool, hooked: bool, writers: map<Tid, Writer>): State {
    INITIAL.(registered := registered, hooked := hooked, writers := writers)
  }

  lemma TwoFindTheProbeOff()
    ensures Reached(With(false, false, map[0 := OnChecked, 1 := OnChecked]))
  {
    assert Leads(INITIAL, [], INITIAL);
    hide Reached;
    ReachOn(INITIAL, Write(0, OnStart), With(false, false, map[0 := OnStart]));
    ReachOn(With(false, false, map[0 := OnStart]), OnCheck(0), With(false, false, map[0 := OnChecked]));
    ReachOn(With(false, false, map[0 := OnChecked]), Write(1, OnStart),
            With(false, false, map[0 := OnChecked, 1 := OnStart]));
    ReachOn(With(false, false, map[0 := OnChecked, 1 := OnStart]), OnCheck(1),
            With(false, false, map[0 := OnChecked, 1 := OnChecked]));
  }

  lemma OneSwitchesOn()
    ensures Reached(With(true, true, map[0 := OnChecked]))
  {
    TwoFindTheProbeOff();
    hide Reached;
    ReachOn(With(false, false, map[0 := OnChecked, 1 := OnChecked]), Register(1),
            With(true, false, map[0 := OnChecked, 1 := OnRegistered]));
    ReachOn(With(true, false, map[0 := OnChecked, 1 := OnRegistered]), SetFlag(1),
            With(true, true, map[0 := OnChecked]));
  }

  lemma AThirdSwitchesOff()
    ensures Reached(With(false, true, map[0 := OnChecked, 2 := OffUnregistered]))
  {
    OneSwitchesOn();
    hide Reached;
    ReachOn(With(true, true, map[0 := OnChecked]), Write(2, OffStart),
            With(true, true, map[0 := OnChecked, 2 := OffStart]));
    ReachOn(With(true, true, map[0 := OnChecked, 2 := OffStart]), OffCheck(2),
            With(true, true, map[0 := OnChecked, 2 := OffChecked]));
    ReachOn(With(true, true, map[0 := OnChecked, 2 := OffChecked]), Unregister(2),
            With(false, true, map[0 := OnChecked, 2 := OffUnregistered]));
  }

  /** The first writer switches the probe on again before the third has cleared the flag. */
  lemma TheFirstOvertakes()
    ensures Reached(With(true, true, map[2 := OffUnregistered]))
  {
    AThirdSwitchesOff();
    hide Reached;
    ReachOn(With(false, true, map[0 := OnChecked, 2 := OffUnregistered]), Register(0),
            With(true, true, map[0 := OnRegistered, 2 := OffUnregistered]));
    ReachOn(With(true, true, map[0 := OnRegistered, 2 := OffUnregistered]), SetFlag(0),
            With(true, true, map[2 := OffUnregistered]));
  }

  /** So overlapping `syscall on` and `syscall off` can leave the probe on and the flag off, with nobody about. */
  lemma OverlapIsUnsafe()
    ensures var s := With(true, false, map[]); Reached(s) && CanEndUnsafe(s)
  {
    TheFirstOvertakes();
    ReachOn(With(true, true, map[2 := OffUnregistered]), ClearFlag(2), With(true, false, map[]));
    UnsafeWithoutFlag(With(true, false, map[]));
  }

  /**
   It is not enough that the flag is set when exit looks: probe and flag are on and nobody is switching the probe on,
   exit finds the flag set, the flag is cleared, and the second look finds it clear.
   */
  lemma SecondLookIsUnsafe()
    ensures var s := With(true, true, map[2 := OffUnregistered]);
            && Reached(s) && NoneSwitchesOn(s)
            && Apply(s, ExitCheck).exit == FlagSeen && CanEndUnsafe(Apply(s, ExitCheck))
  {
    TheFirstOvertakes();
    ClearedBetweenLooks();
  }

  lemma ClearedBetweenLooks()
    ensures CanEndUnsafe(With(true, true, map[2 := OffUnregistered]).(exit := FlagSeen))
  {
    hide CanEndUnsafe;
    var on := With(true, false, map[]);
    QuietIsUnsafe(on.(exit := Unhooked));
    StepFirst(on.(exit := FlagSeen), ExitRecheck);
    assert map[2 := OffUnregistered] - {2} == map[];
    StepFirst(With(true, true, map[2 := OffUnregistered]).(exit := FlagSeen), ClearFlag(2));
  }

  /** `syscall on`, written between the unhooking and the removal of the file, lets a handler into a drained module. */
  lemma LateHookIsUnsafe()
    ensures var unhooked := Apply(INITIAL, ExitCheck);
            unhooked.exit == Unhooked && CanEndUnsafe(Apply(unhooked, Write(0, OnStart)))
  {
    var s := INITIAL.(exit := Unhooked);
    var on := s.(registered := true, hooked := true);
    QuietIsUnsafe(on);
    hide CanEndUnsafe;
    var registered := s.(registered := true, writers := map[0 := OnRegistered]);
    assert registered.writers - {0} == map[];
    assert Apply(registered, SetFlag(0)) == on;
    StepFirst(registered, SetFlag(0));
    LateRegistration(s);
  }

  lemma LateRegistration(s: State)
    requires s == INITIAL.(exit := Unhooked)
    requires CanEndUnsafe(s.(registered := true, writers := map[0 := OnRegistered]))
    ensures CanEndUnsafe(s.(writers := map[0 := OnStart]))
  {
    hide CanEndUnsafe;
    assert map[0 := OnChecked][0 := OnRegistered] == map[0 := OnRegistered];
    StepFirst(s.(writers := map[0 := OnChecked]), Register(0));
    assert map[0 := OnStart][0 := OnChecked] == map[0 := OnChecked];
    StepFirst(s.(writers := map[0 := OnStart]), OnCheck(0));
  }
}
