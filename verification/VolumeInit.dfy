/**
 `cryptpilot-crypt init`, `open` and `close` on one persistent volume, one command at a
 time, as a state machine whose steps are the single changes the commands make. The
 process may be killed and the machine may lose power between any two steps.
 */
module VolumeInit {
  import opened Luks2

  /** `makefs` says whether the configuration asks for a file system. */
  datatype Config = Config(makefs: bool)

  /** Where the running command stands. */
  datatype Pc =
    | Idle
    | InitAllowed(force: bool)      // all checks of `init` have passed
    | HeaderWiped                   // format has destroyed the old header
    | HeaderWritten                 // format has written the new header
    | Formatted                     // format has added the key slot
    | TempOpened                    // the temporary mapping for mkfs is up
    | FsWritten                     // mkfs has finished
    | ReadyToMark                   // nothing left but the marker
    | OpenAllowed                   // all checks of `open` have passed
    | OpenedUnchecked               // `open` has mapped the volume, its file system is being checked

  /**
   The device and the mappings. `keyslot` and `fs` tell what has been completed since the
   latest format: the key slot added, the file system made.
   */
  datatype State = State(header: Header, keyslot: bool, fs: bool, mapped: bool, tempMapped: bool, pc: Pc)

  datatype Status = Opened | ReadyToOpen | InitializingStatus | RequiresInit

  /** `determine_status` of a persistent volume whose device exists. */
  function DetermineStatus(s: State): Status {
    if s.mapped then Opened
    else
      match GetInitState(s.header)
      case Ready => ReadyToOpen
      case Initializing => InitializingStatus
      case None => RequiresInit
  }

  /** `is_dev_in_use`. */
  predicate InUse(s: State) {
    s.mapped || s.tempMapped
  }

  datatype Step =
    | BeginInit(force: bool)
    | WipeHeader
    | WriteHeader
    | AddKeyslot
    | OpenTemp
    | MakeFs
    | CloseTemp(closed: bool)   // the result of closing the temporary mapping is ignored
    | SkipFs
    | Mark
    | BeginOpen
    | Map
    | CheckFs(wanted: bool, found: bool, closed: bool)   // `closed`: the close after a failed check worked
    | Close
    | Fail(closed: bool)        // the running command ends with an error
    | Kill          // the process is killed
    | PowerLoss

  /** What `init` lets through before it changes anything. */
  predicate InitGuard(s: State, force: bool) {
    && !InUse(s)
    && match DetermineStatus(s)
       case Opened => false
       case RequiresInit => true
       case InitializingStatus => true
       case ReadyToOpen => force
  }

  predicate Enabled(c: Config, s: State, step: Step) {
    match step
    case BeginInit(force) => s.pc.Idle? && InitGuard(s, force)
    case WipeHeader => s.pc.InitAllowed?
    case WriteHeader => s.pc.HeaderWiped?
    case AddKeyslot => s.pc.HeaderWritten?
    case OpenTemp => s.pc.Formatted? && c.makefs
    case SkipFs => s.pc.Formatted? && !c.makefs
    case MakeFs => s.pc.TempOpened?
    case CloseTemp(_) => s.pc.FsWritten?
    case Mark => s.pc.ReadyToMark?
    case BeginOpen => s.pc.Idle? && !s.mapped && !InUse(s) && IsInitialized(s.header)
    case Map => s.pc.OpenAllowed? && s.keyslot
    case CheckFs(_, _, _) => s.pc.OpenedUnchecked?
    case Close => s.pc.Idle? && s.mapped
    case Fail(_) => true
    case Kill => true
    case PowerLoss => true
  }

  function Apply(c: Config, s: State, step: Step): State {
    match step
    case BeginInit(force) => s.(pc := InitAllowed(force))
    case WipeHeader => s.(header := NoHeader, keyslot := false, fs := false, pc := HeaderWiped)
    case WriteHeader => s.(header := Luks2(SUBSYSTEM_INITIALIZING), pc := HeaderWritten)
    case AddKeyslot => s.(keyslot := true, pc := Formatted)
    case OpenTemp => s.(tempMapped := true, pc := TempOpened)
    case SkipFs => s.(pc := ReadyToMark)
    case MakeFs => s.(fs := true, pc := FsWritten)
    case CloseTemp(closed) => s.(tempMapped := s.tempMapped && !closed, pc := ReadyToMark)
    case Mark => s.(header := Luks2(SUBSYSTEM_NAME), pc := Idle)
    case BeginOpen => s.(pc := OpenAllowed)
    case Map => s.(mapped := true, pc := OpenedUnchecked)
    case CheckFs(wanted, found, closed) =>
      s.(mapped := s.mapped && !(wanted && c.makefs && !found && closed), pc := Idle)
    case Close => s.(mapped := false)
    case Fail(closed) =>   // dropping an open temporary volume closes it, and ignores the result as well
      s.(tempMapped := s.tempMapped && !(closed && (s.pc.TempOpened? || s.pc.FsWritten?)), pc := Idle)
    case Kill => s.(pc := Idle)
    case PowerLoss => s.(mapped := false, tempMapped := false, pc := Idle)
  }

  /** A step that is not enabled does not happen. */
  function Next(c: Config, s: State, step: Step): State {
    if Enabled(c, s, step) then Apply(c, s, step) else s
  }

  function Run(c: Config, s: State, steps: seq<Step>): State {
    if steps == [] then s else Next(c, Run(c, s, steps[..|steps| - 1]), steps[|steps| - 1])
  }

  /** A device that cryptpilot has not marked Ready, with nothing running. */
  predicate Fresh(s: State) {
    !IsInitialized(s.header) && !s.mapped && !s.tempMapped && s.pc.Idle?
  }

  // ---------- what every reachable state keeps ----------

  predicate Inv(c: Config, s: State) {
    && (IsInitialized(s.header) ==> s.keyslot && (c.makefs ==> s.fs))
    && (s.mapped ==> IsInitialized(s.header))
    && match s.pc
       case Idle => true
       case InitAllowed(force) => !s.mapped && (IsInitialized(s.header) ==> force)
       case HeaderWiped => !s.mapped && s.header.NoHeader? && !s.fs
       case HeaderWritten => !s.mapped && GetInitState(s.header).Initializing? && !s.fs
       case Formatted => !s.mapped && GetInitState(s.header).Initializing? && s.keyslot
       case TempOpened => !s.mapped && GetInitState(s.header).Initializing? && s.keyslot && c.makefs
       case FsWritten => !s.mapped && GetInitState(s.header).Initializing? && s.keyslot && s.fs
       case ReadyToMark => !s.mapped && GetInitState(s.header).Initializing? && s.keyslot && (c.makefs ==> s.fs)
       case OpenAllowed => !s.mapped && IsInitialized(s.header)
       case OpenedUnchecked => IsInitialized(s.header)
  }

  lemma InvStep(c: Config, s: State, step: Step)
    requires Inv(c, s) && Enabled(c, s, step)
    ensures Inv(c, Apply(c, s, step))
  {
    MarkersDiffer();
  }

  lemma {:induction false} InvRun(c: Config, s: State, steps: seq<Step>)
    requires Inv(c, s)
    ensures Inv(c, Run(c, s, steps))
  {
    if steps != [] {
      InvRun(c, s, steps[..|steps| - 1]);
      var t, step := Run(c, s, steps[..|steps| - 1]), steps[|steps| - 1];
      if Enabled(c, t, step) {
        InvStep(c, t, step);
      }
    }
  }

  /**
   Crash safety: in every state of every run, a Ready marker means that the key slot and,
   if asked for, the file system were completed after the latest format; and only such a
   volume is ever mapped.
   */
  lemma ReadyMeansComplete(c: Config, s: State, steps: seq<Step>)
    requires Fresh(s)
    ensures var t := Run(c, s, steps);
            && (IsInitialized(t.header) ==> t.keyslot && (c.makefs ==> t.fs))
            && (t.mapped ==> IsInitialized(t.header))
  {
    InvRun(c, s, steps);
  }

  lemma ReadyKept(c: Config, t: State, step: Step)
    requires Inv(c, t) && IsInitialized(t.header) && !t.pc.InitAllowed? && step != BeginInit(true)
    ensures var u := Next(c, t, step);
            u.header == t.header && u.keyslot == t.keyslot && u.fs == t.fs && !u.pc.InitAllowed?
  {
  }

  /**
   A volume that has become Ready stays Ready, complete, and is never formatted again over
   every continuation of the run in which nobody starts `init --force-reinit`.
   */
  lemma {:induction false} ReadyKeptWithoutForce(c: Config, s: State, steps: seq<Step>, more: seq<Step>)
    requires Fresh(s)
    requires var t := Run(c, s, steps); IsInitialized(t.header) && !t.pc.InitAllowed?
    requires BeginInit(true) !in more
    ensures var t, u := Run(c, s, steps), Run(c, Run(c, s, steps), more);
            u.header == t.header && u.keyslot && (c.makefs ==> u.fs) && !u.pc.InitAllowed?
  {
    var t := Run(c, s, steps);
    InvRun(c, s, steps);
    if more != [] {
      var before := more[..|more| - 1];
      assert forall step :: step in before ==> step in more;
      ReadyKeptWithoutForce(c, s, steps, before);
      InvRun(c, t, before);
      ReadyKept(c, Run(c, t, before), more[|more| - 1]);
    }
  }

  /** The steps of one undisturbed `init`. */
  function InitSteps(c: Config, force: bool): seq<Step> {
    if c.makefs
    then [BeginInit(force), WipeHeader, WriteHeader, AddKeyslot, OpenTemp, MakeFs, CloseTemp(true), Mark]
    else [BeginInit(force), WipeHeader, WriteHeader, AddKeyslot, SkipFs, Mark]
  }

  /** A run may be unrolled from the front. */
  lemma {:induction false} RunFrom(c: Config, s: State, first: Step, rest: seq<Step>)
    ensures Run(c, s, [first] + rest) == Run(c, Next(c, s, first), rest)
  {
    var steps := [first] + rest;
    if rest == [] {
      assert steps[..0] == [];
      assert Run(c, s, steps) == Next(c, Run(c, s, []), first);
    } else {
      RunFrom(c, s, first, rest[..|rest| - 1]);
      assert steps[..|steps| - 1] == [first] + rest[..|rest| - 1];
    }
  }

  lemma InitFormats(c: Config, t: State, force: bool)
    requires t.pc.Idle? && !t.mapped && !t.tempMapped && (IsInitialized(t.header) ==> force)
    ensures Next(c, Next(c, Next(c, Next(c, t, BeginInit(force)), WipeHeader), WriteHeader), AddKeyslot)
         == State(Luks2(SUBSYSTEM_INITIALIZING), true, false, false, false, Formatted)
  {
    var t1 := Next(c, t, BeginInit(force));
    assert t1 == t.(pc := InitAllowed(force));
  }

  /** One undisturbed `init` that passes its checks on an idle device completes the volume. */
  lemma InitCompletes(c: Config, t: State, force: bool)
    requires t.pc.Idle? && !t.mapped && !t.tempMapped && (IsInitialized(t.header) ==> force)
    ensures Run(c, t, InitSteps(c, force))
         == State(Luks2(SUBSYSTEM_NAME), true, c.makefs, false, false, Idle)
  {
    var formatted := State(Luks2(SUBSYSTEM_INITIALIZING), true, false, false, false, Formatted);
    var rest := if c.makefs then [OpenTemp, MakeFs, CloseTemp(true), Mark] else [SkipFs, Mark];
    assert InitSteps(c, force) == [BeginInit(force), WipeHeader, WriteHeader, AddKeyslot] + rest;
    Unroll4(c, t, InitSteps(c, force));
    InitFormats(c, t, force);
    assert InitSteps(c, force)[4..] == rest;
    FormattedCompletes(c, formatted, rest);
  }

  lemma FormattedCompletes(c: Config, t: State, rest: seq<Step>)
    requires t == State(Luks2(SUBSYSTEM_INITIALIZING), true, false, false, false, Formatted)
    requires rest == if c.makefs then [OpenTemp, MakeFs, CloseTemp(true), Mark] else [SkipFs, Mark]
    ensures Run(c, t, rest) == State(Luks2(SUBSYSTEM_NAME), true, c.makefs, false, false, Idle)
  {
    if c.makefs {
      Unroll4(c, t, rest);
    } else {
      Unroll2(c, t, rest);
    }
  }

  lemma Unroll2(c: Config, s: State, steps: seq<Step>)
    requires |steps| >= 2
    ensures Run(c, s, steps) == Run(c, Next(c, Next(c, s, steps[0]), steps[1]), steps[2..])
  {
    assert steps == [steps[0]] + ([steps[1]] + steps[2..]);
    RunFrom(c, s, steps[0], [steps[1]] + steps[2..]);
    RunFrom(c, Next(c, s, steps[0]), steps[1], steps[2..]);
  }

  lemma Unroll4(c: Config, s: State, steps: seq<Step>)
    requires |steps| >= 4
    ensures Run(c, s, steps)
         == Run(c, Next(c, Next(c, Next(c, Next(c, s, steps[0]), steps[1]), steps[2]), steps[3]), steps[4..])
  {
    Unroll2(c, s, steps);
    Unroll2(c, Next(c, Next(c, s, steps[0]), steps[1]), steps[2..]);
    assert steps[2..][2..] == steps[4..];
  }

  /**
   Recovery: wherever a run is cut by a power loss, the volume is either complete already,
   and `open` maps it, or one plain `init`, without force, completes it so that `open` does.
   */
  lemma PowerLossRecovers(c: Config, s: State, steps: seq<Step>)
    requires Fresh(s)
    ensures var t := Next(c, Run(c, s, steps), PowerLoss);
            var u := if IsInitialized(t.header) then t else Run(c, t, InitSteps(c, false));
            var v := Next(c, Next(c, u, BeginOpen), Map);
            v.mapped && v.keyslot && (c.makefs ==> v.fs)
  {
    InvRun(c, s, steps);
    var t := Next(c, Run(c, s, steps), PowerLoss);
    if !IsInitialized(t.header) {
      InitCompletes(c, t, false);
    }
  }

  // ---------- the commands ----------

  /** One volume, with the steps taken on it since it was first seen. */
  class Volume {
    const config: Config
    var state: State
    ghost const first: State
    ghost var trace: seq<Step>

    /** The commands do nothing but steps of the machine above. */
    ghost predicate Valid()
      reads this
    {
      Fresh(first) && state == Run(config, first, trace)
    }

    constructor (config: Config, state: State)
      requires Fresh(state)
      ensures Valid() && this.config == config && this.state == state && trace == []
    {
      this.config := config;
      this.state := state;
      first := state;
      trace := [];
    }

    method Do(step: Step)
      requires Valid() && Enabled(config, state, step)
      modifies this
      ensures Valid() && state == Apply(config, old(state), step)
    {
      assert (trace + [step])[..|trace|] == trace;
      state := Apply(config, state, step);
      trace := trace + [step];
    }

    /** A step that may fail: `works` tells which of the external operations succeed, closing the mapping included. */
    method Try(step: Step, works: Step -> bool) returns (ok: bool)
      requires Valid() && Enabled(config, state, step)
      modifies this
      ensures Valid() && ok == works(step)
      ensures state == Apply(config, old(state), if ok then step else Fail(Closes(works)))
    {
      ok := works(step);
      Do(if ok then step else Fail(Closes(works)));
    }

    /**
     `persistent_disk_init`. It goes through exactly if its checks pass and every operation
     works, but for closing the temporary mapping: if that fails, the device stays in use.
     A failed one leaves the volume as it was, or idle and not Ready.
     */
    method PersistentDiskInit(force: bool, works: Step -> bool) returns (ok: bool)
      requires Valid() && state.pc.Idle?
      modifies this
      ensures Valid()
      ensures ok <==> && !old(state.mapped) && !old(state.tempMapped) && (IsInitialized(old(state.header)) ==> force)
                      && InitWorks(config, force, works)
      ensures ok ==>
                state == State(Luks2(SUBSYSTEM_NAME), true, config.makefs, false, config.makefs && !Closes(works), Idle)
      ensures !ok ==> state == old(state) || Unfinished(config, state, works)
    {
      match DetermineStatus(state) {
        case Opened => return false;
        case RequiresInit =>
        case InitializingStatus =>
        case ReadyToOpen =>
          if !force {
            return false;
          }
      }
      if InUse(state) {
        return false;
      }
      ok := Try(BeginInit(force), works);
      if !ok {
        return;
      }
      ok := Format(works);
      if !ok {
        return;
      }
      ok := MakeFileSystem(works);
      if !ok {
        return;
      }
      ok := Try(Mark, works);
    }

    /** The optional file system, made through a temporary mapping; whether that could be closed is ignored. */
    method MakeFileSystem(works: Step -> bool) returns (ok: bool)
      requires Valid() && state.pc.Formatted? && !InUse(state) && !IsInitialized(state.header)
      modifies this
      ensures Valid() && (ok <==> (config.makefs ==> works(OpenTemp) && works(MakeFs)))
      ensures ok ==>
                state == old(state).(fs := old(state.fs) || config.makefs,
                                     tempMapped := config.makefs && !Closes(works),
                                     pc := ReadyToMark)
      ensures !ok ==> Unfinished(config, state, works)
    {
      if !config.makefs {
        Do(SkipFs);
        return true;
      }
      ok := Try(OpenTemp, works);
      if !ok {
        return;
      }
      ok := Try(MakeFs, works);
      if ok {
        Do(CloseTemp(Closes(works)));
      }
    }

    /** `luks2::format`. */
    method Format(works: Step -> bool) returns (ok: bool)
      requires Valid() && state.pc.InitAllowed? && !InUse(state)
      modifies this
      ensures Valid() && (ok <==> works(WipeHeader) && works(WriteHeader) && works(AddKeyslot))
      ensures ok ==>
                && !IsInitialized(state.header)
                && state == old(state).(header := Luks2(SUBSYSTEM_INITIALIZING), keyslot := true, fs := false,
                                        pc := Formatted)
      ensures !ok ==> state == old(state).(pc := Idle) || Unfinished(config, state, works)
    {
      MarkersDiffer();
      ok := Try(WipeHeader, works);
      if !ok {
        return;
      }
      ok := Try(WriteHeader, works);
      if !ok {
        return;
      }
      ok := Try(AddKeyslot, works);
    }

    /**
     `open_for_specific_volume` with a persistent key. `wanted` is the option `check_fs`,
     `found` what the probe of the mapped volume says, `closed` whether the closing works;
     fetching the key, checking the passphrase and mapping may fail.
     */
    method OpenVolume(wanted: bool, found: bool, closed: bool, works: Step -> bool) returns (ok: bool)
      requires Valid() && state.pc.Idle?
      modifies this
      ensures Valid()
      ensures old(state.mapped) ==> ok && state == old(state)
      ensures !old(state.mapped) ==>
                var maps := && !old(state.tempMapped) && IsInitialized(old(state.header))
                            && works(BeginOpen) && works(Map);
                var rejected := wanted && config.makefs && !found;
                && (ok <==> maps && !rejected)
                && state == old(state).(mapped := maps && !(rejected && closed))
    {
      if state.mapped {
        return true;
      }
      if InUse(state) {
        return false;
      }
      if !IsInitialized(state.header) {
        return false;
      }
      InvRun(config, first, trace);
      ok := Try(BeginOpen, works);
      if !ok {
        return;
      }
      ok := Try(Map, works);
      if !ok {
        return;
      }
      Do(CheckFs(wanted, found, closed));
      ok := !(wanted && config.makefs && !found);
    }
  }

  /** The temporary mapping can be closed. */
  predicate Closes(works: Step -> bool) {
    works(CloseTemp(true))
  }

  /** What a failed `init` leaves behind. */
  predicate Unfinished(c: Config, s: State, works: Step -> bool) {
    s.pc.Idle? && !s.mapped && !IsInitialized(s.header) && (s.tempMapped ==> c.makefs && !Closes(works))
  }

  /** Every operation that `init` needs works: fetching the key and the confirmation, and the steps. */
  predicate InitWorks(c: Config, force: bool, works: Step -> bool) {
    && works(BeginInit(force)) && works(WipeHeader) && works(WriteHeader) && works(AddKeyslot)
    && (c.makefs ==> works(OpenTemp) && works(MakeFs))
    && works(Mark)
  }
}
