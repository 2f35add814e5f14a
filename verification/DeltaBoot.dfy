/**
 The writable delta volume of a full-disk-encrypted system over repeated boots with one
 fixed configuration. Every boot runs the steps below and may be cut at any of them.
 */
module DeltaBoot {
  import opened Luks2

  datatype Backend = Overlayfs | DmSnapshot
  datatype Location = Disk | DiskPersist

  /** `temporary` says that the key provider hands out a new key on every boot. */
  datatype Config = Config(backend: Backend, location: Location, temporary: bool)

  predicate Persistent(c: Config) {
    c.location.DiskPersist? && !c.temporary
  }

  /** What a probe of the opened delta volume finds. */
  datatype Content = NoSignatures | SnapshotCow | Ext4 | OtherSignature

  /** What the running system has stored, with the boot that stored it. */
  datatype Item = Item(boot: nat, value: int)

  /** Where the current boot stands. */
  datatype Pc =
    | Off
    | Started
    | LvCreated       // the logical volume exists, its first 4096 bytes are not zeroed yet
    | LvReady
    | Recreating      // about to format
    | HeaderWiped
    | HeaderWritten
    | Openable        // about to map the volume
    | Opened
    | CowReady        // the header of the COW device has been dealt with
    | Prepared        // the file system or the snapshot is up
    | Running
    | Halted          // the boot has failed

  /** `formatted` is the boot in which the latest format was completed. */
  datatype State = State(
    lv: bool, header: Header, content: Content, data: seq<Item>,
    mapped: bool, boot: nat, formatted: nat, recreate: bool, pc: Pc)

  /** Parameters stand for what a step may leave behind or what the outside decides. */
  datatype Step =
    | PowerOn
    | LvCreate(stale: Header, inside: Content)
    | ZeroHeader
    | ExpandLv
    | Decide          // the key has been fetched
    | WipeHeader
    | WriteHeader(noise: Content)
    | AddKeyslot
    | Open
    | MkfsPartly(noise: Content)
    | MakeExt4
    | ResizeExt4
    | WipeCow
    | KeepCow
    | CreateSnapshot
    | Mark
    | Reuse
    | Store(value: int)
    | Fail
    | PowerLoss

  /** The decision of `setup_delta_volume_luks2`. */
  predicate MustRecreate(c: Config, s: State) {
    if c.temporary then true
    else if !IsInitialized(s.header) then true
    else c.location.Disk?
  }

  predicate Enabled(c: Config, s: State, step: Step) {
    match step
    case PowerOn => s.pc.Off?
    case LvCreate(_, _) => s.pc.Started? && !s.lv
    case ZeroHeader => s.pc.LvCreated?
    case ExpandLv => s.pc.Started? && s.lv
    case Decide => s.pc.LvReady?
    case WipeHeader => s.pc.Recreating?
    case WriteHeader(_) => s.pc.HeaderWiped?
    case AddKeyslot => s.pc.HeaderWritten?
    case Open => s.pc.Openable? && s.header.Luks2?
    case MkfsPartly(_) => s.pc.Opened? && c.backend.Overlayfs? && s.recreate
    case MakeExt4 => s.pc.Opened? && c.backend.Overlayfs? && s.recreate
    case ResizeExt4 => s.pc.Opened? && c.backend.Overlayfs? && !s.recreate && s.content.Ext4?
    case WipeCow => s.pc.Opened? && c.backend.DmSnapshot? && (c.location.DiskPersist? ==> s.content.NoSignatures?)
    case KeepCow => s.pc.Opened? && c.backend.DmSnapshot? && c.location.DiskPersist? && s.content.SnapshotCow?
    case CreateSnapshot => s.pc.CowReady?
    case Mark => s.pc.Prepared? && s.recreate
    case Reuse => s.pc.Prepared? && !s.recreate
    case Store(_) => s.pc.Running?
    case Fail => !s.pc.Off? && !s.pc.Running?
    case PowerLoss => !s.pc.Off?
  }

  function Apply(c: Config, s: State, step: Step): State {
    match step
    case PowerOn => s.(boot := s.boot + 1, recreate := false, pc := Started)
    case LvCreate(stale, inside) => s.(lv := true, header := stale, content := inside, data := [], pc := LvCreated)
    case ZeroHeader => s.(header := NoHeader, pc := LvReady)
    case ExpandLv => s.(pc := LvReady)
    case Decide =>
      if MustRecreate(c, s) then s.(recreate := true, pc := Recreating) else s.(recreate := false, pc := Openable)
    // the volume key goes with the old header, and with it everything stored so far
    case WipeHeader => s.(header := NoHeader, data := [], pc := HeaderWiped)
    case WriteHeader(noise) => s.(header := Luks2(SUBSYSTEM_INITIALIZING), content := noise, pc := HeaderWritten)
    case AddKeyslot => s.(formatted := s.boot, pc := Openable)
    case Open => s.(mapped := true, pc := Opened)
    case MkfsPartly(noise) => s.(content := noise, data := [])
    case MakeExt4 => s.(content := Ext4, data := [], pc := Prepared)
    case ResizeExt4 => s.(pc := Prepared)
    case WipeCow => s.(content := NoSignatures, data := [], pc := CowReady)
    case KeepCow => s.(pc := CowReady)
    // a persistent snapshot writes its own header to the COW device
    case CreateSnapshot => s.(content := if c.location.DiskPersist? then SnapshotCow else s.content, pc := Prepared)
    case Mark => s.(header := Luks2(SUBSYSTEM_NAME), pc := Running)
    case Reuse => s.(pc := Running)
    case Store(value) => s.(data := s.data + [Item(s.boot, value)])
    case Fail => s.(pc := Halted)
    case PowerLoss => s.(mapped := false, pc := Off)
  }

  /** The steps that overwrite the volume, its header or what it holds. */
  predicate Destroys(step: Step) {
    step.LvCreate? || step.ZeroHeader? || step.WipeHeader? || step.WriteHeader?
    || step.MkfsPartly? || step.MakeExt4? || step.WipeCow?
  }

  /** A step that is not enabled does not happen. */
  function Next(c: Config, s: State, step: Step): State {
    if Enabled(c, s, step) then Apply(c, s, step) else s
  }

  function Run(c: Config, s: State, steps: seq<Step>): State {
    if steps == [] then s else Next(c, Run(c, s, steps[..|steps| - 1]), steps[|steps| - 1])
  }

  /** A machine that has never booted: no delta volume yet. */
  predicate NeverBooted(s: State) {
    s.pc.Off? && !s.lv && !s.mapped && s.data == []
  }

  /** What the backend leaves on a persistent delta volume once it is set up. */
  predicate Complete(c: Config, content: Content) {
    if c.backend.Overlayfs? then content.Ext4? else content.SnapshotCow?
  }

  // ---------- a persistent delta volume ----------

  /** Ready, complete, and no boot is on its way to overwrite it. */
  predicate Settled(c: Config, s: State) {
    && s.lv && IsInitialized(s.header) && Complete(c, s.content)
    && !s.pc.LvCreated? && !s.pc.Recreating? && !s.pc.HeaderWiped? && !s.pc.HeaderWritten?
    && (s.pc.Openable? || s.pc.Opened? || s.pc.CowReady? || s.pc.Prepared? ==> !s.recreate)
    && (s.pc.CowReady? ==> c.backend.DmSnapshot?)
  }

  lemma SettledStep(c: Config, s: State, step: Step)
    requires Persistent(c) && Settled(c, s) && Enabled(c, s, step)
    ensures !Destroys(step) && Settled(c, Apply(c, s, step)) && s.data <= Apply(c, s, step).data
  {
  }

  lemma {:induction false} SettledRun(c: Config, s: State, steps: seq<Step>)
    requires Persistent(c) && Settled(c, s)
    ensures Settled(c, Run(c, s, steps)) && s.data <= Run(c, s, steps).data
  {
    if steps != [] {
      SettledRun(c, s, steps[..|steps| - 1]);
      var t, step := Run(c, s, steps[..|steps| - 1]), steps[|steps| - 1];
      if Enabled(c, t, step) {
        SettledStep(c, t, step);
      }
    }
  }

  /** Whatever has been stored, or may be stored now, sits on a settled volume. */
  predicate Inv(c: Config, s: State) {
    && (!s.lv ==> s.pc.Off? || s.pc.Started? || s.pc.Halted?)
    && (s.data != [] || s.pc.Running? ==> Settled(c, s))
    && (s.pc.Recreating? || s.pc.HeaderWiped? || s.pc.HeaderWritten? ==> s.recreate)
    && (s.pc.Openable? || s.pc.Opened? || s.pc.CowReady? || s.pc.Prepared? ==> s.recreate || IsInitialized(s.header))
    && (s.pc.CowReady? ==> c.backend.DmSnapshot?)
    && (s.pc.Prepared? ==> Complete(c, s.content))
  }

  lemma InvStep(c: Config, s: State, step: Step)
    requires Persistent(c) && Inv(c, s) && Enabled(c, s, step)
    ensures Inv(c, Apply(c, s, step))
  {
    MarkersDiffer();
    if Settled(c, s) {
      SettledStep(c, s, step);
    }
  }

  lemma {:induction false} InvRun(c: Config, s: State, steps: seq<Step>)
    requires Persistent(c) && Inv(c, s)
    ensures Inv(c, Run(c, s, steps))
  {
    if steps != [] {
      InvRun(c, s, steps[..|steps| - 1]);
      var t, step := Run(c, s, steps[..|steps| - 1]), steps[|steps| - 1];
      if Enabled(c, t, step) {
        InvStep(c, t, step);
      }
    }
  }

  /**
   Once a boot has come up (its last step being the Ready mark, or the decision to reuse),
   no later step of any later boot formats, wipes or remakes a persistent delta volume.
   */
  lemma NeverOverwrittenOnceUp(c: Config, s: State, steps: seq<Step>, more: seq<Step>, step: Step)
    requires Persistent(c) && NeverBooted(s) && Run(c, s, steps).pc.Running?
    ensures var u := Run(c, Run(c, s, steps), more); Enabled(c, u, step) ==> !Destroys(step)
  {
    var t := Run(c, s, steps);
    InvRun(c, s, steps);
    SettledRun(c, t, more);
    var u := Run(c, t, more);
    if Enabled(c, u, step) {
      SettledStep(c, u, step);
    }
  }

  /** Nothing the running system has stored on a persistent delta volume is ever lost. */
  lemma DataSurvives(c: Config, s: State, steps: seq<Step>, more: seq<Step>)
    requires Persistent(c) && NeverBooted(s)
    ensures Run(c, s, steps).data <= Run(c, Run(c, s, steps), more).data
  {
    var t := Run(c, s, steps);
    InvRun(c, s, steps);
    if t.data != [] {
      SettledRun(c, t, more);
    }
  }

  /** The steps of one undisturbed boot that reuses the volume. */
  function ReuseSteps(c: Config): seq<Step> {
    if c.backend.Overlayfs?
    then [PowerOn, ExpandLv, Decide, Open, ResizeExt4, Reuse]
    else [PowerOn, ExpandLv, Decide, Open, KeepCow, CreateSnapshot, Reuse]
  }

  /** A run may be unrolled from the front. */
  lemma {:induction false} RunFrom(c: Config, s: State, steps: seq<Step>)
    requires steps != []
    ensures Run(c, s, steps) == Run(c, Next(c, s, steps[0]), steps[1..])
  {
    var before := steps[..|steps| - 1];
    if before == [] {
      assert Run(c, s, steps) == Next(c, Run(c, s, []), steps[0]);
    } else {
      RunFrom(c, s, before);
      assert before[1..] == steps[1..][..|steps| - 2];
    }
  }

  /** However a later boot is cut, the one after it comes up with everything stored so far. */
  lemma SettledBoots(c: Config, s: State, steps: seq<Step>, more: seq<Step>)
    requires Persistent(c) && NeverBooted(s) && Run(c, s, steps).pc.Running?
    ensures var u := Next(c, Run(c, Run(c, s, steps), more), PowerLoss);
            var v := Run(c, u, ReuseSteps(c));
            v.pc.Running? && v.mapped && v.boot == u.boot + 1 && v.data == u.data && Run(c, s, steps).data <= v.data
  {
    var t := Run(c, s, steps);
    InvRun(c, s, steps);
    SettledRun(c, t, more);
    var w := Run(c, t, more);
    var u := Next(c, w, PowerLoss);
    if Enabled(c, w, PowerLoss) {
      SettledStep(c, w, PowerLoss);
    }
    ReuseBoots(c, u);
  }

  lemma Unroll2(c: Config, s: State, steps: seq<Step>)
    requires |steps| >= 2
    ensures Run(c, s, steps) == Run(c, Next(c, Next(c, s, steps[0]), steps[1]), steps[2..])
  {
    RunFrom(c, s, steps);
    RunFrom(c, Next(c, s, steps[0]), steps[1..]);
    assert steps[1..][1..] == steps[2..];
  }

  lemma Unroll4(c: Config, s: State, steps: seq<Step>)
    requires |steps| >= 4
    ensures Run(c, s, steps)
         == Run(c, Next(c, Next(c, Next(c, Next(c, s, steps[0]), steps[1]), steps[2]), steps[3]), steps[4..])
  {
    Unroll2(c, s, steps);
    Unroll2(c, Next(c, Next(c, s, steps[0]), steps[1]), steps[2..]);
    assert steps[2..][2..] == steps[4..];
  }

  lemma ReuseOpens(c: Config, u: State)
    requires !c.temporary && c.location.DiskPersist? && u.lv && IsInitialized(u.header) && u.pc.Off?
    ensures Next(c, Next(c, Next(c, Next(c, u, PowerOn), ExpandLv), Decide), Open)
         == u.(boot := u.boot + 1, recreate := false, mapped := true, pc := Opened)
  {
    var v := Next(c, Next(c, u, PowerOn), ExpandLv);
    assert v == u.(boot := u.boot + 1, recreate := false, pc := LvReady);
  }

  lemma ReuseBoots(c: Config, u: State)
    requires Persistent(c) && Settled(c, u) && u.pc.Off?
    ensures Run(c, u, ReuseSteps(c)) == u.(boot := u.boot + 1, recreate := false, mapped := true, pc := Running)
  {
    var rest := if c.backend.Overlayfs? then [ResizeExt4, Reuse] else [KeepCow, CreateSnapshot, Reuse];
    assert ReuseSteps(c) == [PowerOn, ExpandLv, Decide, Open] + rest;
    assert ReuseSteps(c)[4..] == rest;
    Unroll4(c, u, ReuseSteps(c));
    ReuseOpens(c, u);
    OpenedBoots(c, u.(boot := u.boot + 1, recreate := false, mapped := true, pc := Opened), rest);
  }

  lemma OpenedBoots(c: Config, u: State, rest: seq<Step>)
    requires Persistent(c) && Settled(c, u) && u.pc.Opened?
    requires rest == if c.backend.Overlayfs? then [ResizeExt4, Reuse] else [KeepCow, CreateSnapshot, Reuse]
    ensures Run(c, u, rest) == u.(pc := Running)
  {
    OpenedPrepares(c, u);
    Unroll2(c, u, rest);
    if c.backend.DmSnapshot? {
      RunFrom(c, u.(pc := Prepared), rest[2..]);
    }
  }

  lemma OpenedPrepares(c: Config, u: State)
    requires Persistent(c) && Settled(c, u) && u.pc.Opened?
    ensures c.backend.Overlayfs? ==> Next(c, Next(c, u, ResizeExt4), Reuse) == u.(pc := Running)
    ensures c.backend.DmSnapshot? ==> Next(c, Next(c, u, KeepCow), CreateSnapshot) == u.(pc := Prepared)
    ensures Next(c, u.(pc := Prepared), Reuse) == u.(pc := Running)
  {
  }

  // ---------- a delta volume that is not persistent ----------

  /** A mapped volume was formatted in this boot and holds nothing older. */
  predicate FreshInv(s: State) {
    && (s.mapped ==> s.formatted == s.boot && (forall item <- s.data :: item.boot == s.boot))
    && (s.pc.HeaderWiped? || s.pc.HeaderWritten? ==> s.data == [])
    && (s.pc.Openable? ==> s.formatted == s.boot && s.data == [])
    && (s.mapped ==> s.pc.Opened? || s.pc.CowReady? || s.pc.Prepared? || s.pc.Running? || s.pc.Halted?)
    && (s.pc.Opened? || s.pc.CowReady? || s.pc.Prepared? || s.pc.Running? ==> s.mapped)
  }

  lemma FreshStep(c: Config, s: State, step: Step)
    requires !Persistent(c) && FreshInv(s) && Enabled(c, s, step)
    ensures FreshInv(Apply(c, s, step))
  {
  }

  /**
   With location `Disk` or a temporary key, every boot that maps the delta volume has
   formatted it in that same boot, and nothing stored in an earlier boot can be read.
   */
  lemma {:induction false} NothingOutlivesABoot(c: Config, s: State, steps: seq<Step>)
    requires !Persistent(c) && NeverBooted(s)
    ensures var t := Run(c, s, steps);
            && FreshInv(t)
            && (t.mapped ==> t.formatted == t.boot && (forall item <- t.data :: item.boot == t.boot))
  {
    if steps != [] {
      NothingOutlivesABoot(c, s, steps[..|steps| - 1]);
      var t, step := Run(c, s, steps[..|steps| - 1]), steps[|steps| - 1];
      if Enabled(c, t, step) {
        FreshStep(c, t, step);
      }
    }
  }

  // ---------- the window between lvcreate and zeroing ----------

  /** A boot that reuses the volume finds on it what a finished set-up left there. */
  predicate ReuseFindsComplete(c: Config, s: State) {
    s.pc.Opened? && !s.recreate ==> Complete(c, s.content)
  }

  /** Every `lvcreate` of the run hands out space that starts with the header `h`. */
  predicate LeavesOnly(h: Header, steps: seq<Step>) {
    forall step <- steps :: step.LvCreate? ==> step.stale == h
  }

  lemma {:induction false} ReadyIsComplete(c: Config, s: State, h: Header, steps: seq<Step>)
    requires Persistent(c) && NeverBooted(s) && LeavesOnly(h, steps) && !IsInitialized(h)
    ensures var t := Run(c, s, steps);
            Inv(c, t) && (t.lv && IsInitialized(t.header) ==> Settled(c, t))
  {
    MarkersDiffer();
    if steps != [] {
      var before := steps[..|steps| - 1];
      assert forall step :: step in before ==> step in steps;
      ReadyIsComplete(c, s, h, before);
      var t, step := Run(c, s, before), steps[|steps| - 1];
      if Enabled(c, t, step) {
        InvStep(c, t, step);
        if Settled(c, t) {
          SettledStep(c, t, step);
        }
      }
    }
  }

  /** The run in which the first boot is cut between `lvcreate` and zeroing. */
  function CutBeforeZeroing(h: Header): seq<Step> {
    [PowerOn, LvCreate(h, OtherSignature), PowerLoss, PowerOn, ExpandLv, Decide, Open]
  }

  lemma StaleHeaderReused(c: Config, s: State, h: Header)
    requires Persistent(c) && NeverBooted(s) && IsInitialized(h)
    ensures LeavesOnly(h, CutBeforeZeroing(h)) && !ReuseFindsComplete(c, Run(c, s, CutBeforeZeroing(h)))
  {
    var steps := CutBeforeZeroing(h);
    RunFrom(c, s, steps);
    Unroll2(c, Next(c, s, PowerOn), steps[1..]);
    Unroll4(c, Next(c, Next(c, Next(c, s, PowerOn), LvCreate(h, OtherSignature)), PowerLoss), steps[1..][2..]);
    FirstBootCut(c, s, h);
    ReuseOpens(c, CutState(s, h));
    assert steps[1..][2..] == [PowerOn, ExpandLv, Decide, Open];
  }

  function CutState(s: State, h: Header): State {
    s.(lv := true, header := h, content := OtherSignature, data := [], mapped := false,
       boot := s.boot + 1, recreate := false, pc := Off)
  }

  lemma FirstBootCut(c: Config, s: State, h: Header)
    requires NeverBooted(s)
    ensures Next(c, Next(c, Next(c, s, PowerOn), LvCreate(h, OtherSignature)), PowerLoss) == CutState(s, h)
  {
    assert Next(c, s, PowerOn) == s.(boot := s.boot + 1, recreate := false, pc := Started);
  }

  /**
   The zeroing of the new logical volume is not atomic with its creation. A persistent
   delta volume is reused only when complete, over all runs, exactly when the space that
   `lvcreate` hands out does not start with a Ready header left from earlier use.
   */
  lemma ReuseCompleteExactly(c: Config, s: State, h: Header)
    requires Persistent(c) && NeverBooted(s)
    ensures (forall steps :: LeavesOnly(h, steps) ==> ReuseFindsComplete(c, Run(c, s, steps))) <==> !IsInitialized(h)
  {
    if IsInitialized(h) {
      StaleHeaderReused(c, s, h);
    } else {
      forall steps | LeavesOnly(h, steps)
        ensures ReuseFindsComplete(c, Run(c, s, steps))
      {
        ReadyIsComplete(c, s, h, steps);
      }
    }
  }

  // ---------- one boot ----------

  /** The delta volume, with the steps taken on it since the machine was new. */
  class DeltaVolume {
    const config: Config
    var state: State
    ghost const first: State
    ghost var trace: seq<Step>

    /** A boot does nothing but steps of the machine above. */
    ghost predicate Valid()
      reads this
    {
      NeverBooted(first) && state == Run(config, first, trace)
    }

    constructor (config: Config, state: State)
      requires NeverBooted(state)
      ensures Valid() && this.config == config && this.state == state
    {
      this.config := config;
      this.state := state;
      first := state;
      trace := [];
    }

    method Do(step: Step)
      requires Valid() && Enabled(config, state, step)
      modifies this
      ensures Valid() && state == Apply(config, old(state), step)
    {
      assert (trace + [step])[..|trace|] == trace;
      state := Apply(config, state, step);
      trace := trace + [step];
    }

    /** A step that may fail: `works` tells which of the external operations succeed. */
    method Try(step: Step, works: Step -> bool) returns (ok: bool)
      requires Valid() && Enabled(config, state, step) && !state.pc.Off? && !state.pc.Running?
      modifies this
      ensures Valid() && ok == works(step)
      ensures state == Apply(config, old(state), if ok then step else Fail)
    {
      ok := works(step);
      Do(if ok then step else Fail);
    }

    /**
     `ensure_delta_volume_exist_and_expanded`; new space holds `stale` and `inside`. That an
     existing volume could not be expanded is ignored.
     */
    method EnsureExists(stale: Header, inside: Content, works: Step -> bool) returns (ok: bool)
      requires Valid() && state.pc.Started?
      modifies this
      ensures Valid() && (ok <==> old(state.lv) || (works(LvCreate(stale, inside)) && works(ZeroHeader)))
      ensures ok ==>
                state == if old(state.lv) then old(state).(pc := LvReady)
                         else old(state).(lv := true, header := NoHeader, content := inside, data := [], pc := LvReady)
    {
      if state.lv {
        Do(ExpandLv);
        return true;
      }
      ok := Try(LvCreate(stale, inside), works);
      if ok {
        ok := Try(ZeroHeader, works);
      }
    }

    /** `luks2::format`, if the content is to be recreated. */
    method FormatIfRecreated(noise: Content, works: Step -> bool) returns (ok: bool)
      requires Valid() && (if state.recreate then state.pc.Recreating? else state.pc.Openable?)
      modifies this
      ensures Valid()
      ensures ok <==> (old(state.recreate) ==> works(WipeHeader) && works(WriteHeader(noise)) && works(AddKeyslot))
      ensures ok ==>
                state == if !old(state.recreate) then old(state)
                         else old(state).(header := Luks2(SUBSYSTEM_INITIALIZING), content := noise, data := [],
                                          formatted := old(state.boot), pc := Openable)
    {
      if !state.recreate {
        return true;
      }
      ok := Try(WipeHeader, works);
      if !ok {
        return;
      }
      ok := Try(WriteHeader(noise), works);
      if !ok {
        return;
      }
      ok := Try(AddKeyslot, works);
    }

    /** `setup_delta_volume_luks2`; the step `Decide` fails if the key cannot be fetched. */
    method SetupLuks2(noise: Content, works: Step -> bool) returns (ok: bool)
      requires Valid() && state.pc.LvReady?
      modifies this
      ensures Valid()
      ensures var recreate := config.temporary || config.location.Disk? || !IsInitialized(old(state.header));
              && (ok <==> LuksWorks(recreate, noise, works))
              && (ok ==>
                    state == if recreate
                             then old(state).(header := Luks2(SUBSYSTEM_INITIALIZING), content := noise, data := [],
                                              formatted := old(state.boot), recreate := true, mapped := true,
                                              pc := Opened)
                             else old(state).(recreate := false, mapped := true, pc := Opened))
    {
      ok := Try(Decide, works);
      if !ok {
        return;
      }
      ok := FormatIfRecreated(noise, works);
      if !ok {
        return;
      }
      assert state.header.Luks2?;
      ok := Try(Open, works);
    }

    /** The header of the COW device: wiped, kept, or protected by failing the boot. */
    method PrepareCow(works: Step -> bool) returns (ok: bool)
      requires Valid() && state.pc.Opened? && config.backend.DmSnapshot?
      modifies this
      ensures Valid() && (ok <==> CowWorks(config, old(state.content), works))
      ensures ok ==>
                state == if config.location.DiskPersist? && old(state.content).SnapshotCow?
                         then old(state).(pc := CowReady)
                         else old(state).(content := NoSignatures, data := [], pc := CowReady)
    {
      if config.location.Disk? {
        ok := Try(WipeCow, works);
        return;
      }
      match state.content {
        case NoSignatures => ok := Try(WipeCow, works);
        case SnapshotCow => Do(KeepCow); ok := true;
        case _ => Do(Fail); ok := false;
      }
    }

    /** The backend on the opened volume. */
    method SetupBackend(works: Step -> bool) returns (ok: bool)
      requires Valid() && state.pc.Opened?
      modifies this
      ensures Valid() && (ok <==> BackendWorks(config, old(state.recreate), old(state.content), works))
      ensures ok ==> state.pc.Prepared? && state.content == BackendLeaves(config)
      ensures ok && !old(state.recreate) && Complete(config, old(state.content)) && config.location.DiskPersist? ==>
                state.data == old(state.data)
      ensures ok ==> state == old(state).(content := state.content, data := state.data, pc := Prepared)
      ensures ok && old(state.data) == [] ==> state.data == []
    {
      match config.backend {
        case Overlayfs =>
          if state.recreate {
            ok := Try(MakeExt4, works);
          } else if state.content.Ext4? {
            ok := Try(ResizeExt4, works);
          } else {
            Do(Fail);
            ok := false;
          }
        case DmSnapshot =>
          ok := PrepareCow(works);
          if ok {
            ok := Try(CreateSnapshot, works);
          }
      }
    }

    /**
     The delta part of `setup_volumes_required_by_fde`: when it succeeds, which content it
     destroys, and that the volume it leaves is Ready. Every operation may fail, which ends
     the boot; what is lost then is what the theorems about all runs allow.
     */
    method SetupDelta(stale: Header, inside: Content, noise: Content, works: Step -> bool) returns (ok: bool)
      requires Valid() && state.pc.Started?
      modifies this
      ensures Valid()
      ensures var recreate :=
                !old(state.lv) || config.temporary || config.location.Disk? || !IsInitialized(old(state.header));
              var found := if recreate then noise else old(state.content);
              && (ok <==> && (old(state.lv) || (works(LvCreate(stale, inside)) && works(ZeroHeader)))
                          && LuksWorks(recreate, noise, works) && BackendWorks(config, recreate, found, works)
                          && (recreate ==> works(Mark)))
              && (ok ==> state.pc.Running? && state.mapped && IsInitialized(state.header))
              && (ok ==> state.content == BackendLeaves(config))
              && (ok && recreate ==> state.formatted == state.boot && state.data == [])
              && (ok && !recreate && Complete(config, old(state.content)) ==>
                    state.data == old(state.data) && state.header == old(state.header))
    {
      ghost var recreate := !state.lv || config.temporary || config.location.Disk? || !IsInitialized(state.header);
      ghost var found := if recreate then noise else state.content;
      ghost var data := if recreate then [] else state.data;
      ok := EnsureExists(stale, inside, works);
      if !ok {
        return;
      }
      ok := SetupLuks2(noise, works);
      if !ok {
        return;
      }
      assert state.recreate == recreate && state.content == found && state.data == data;
      ok := SetupBackend(works);
      if !ok {
        return;
      }
      ok := FinishBoot(works);
    }

    method FinishBoot(works: Step -> bool) returns (ok: bool)
      requires Valid() && state.pc.Prepared?
      modifies this
      ensures Valid() && (ok <==> (old(state.recreate) ==> works(Mark)))
      ensures ok ==> state == old(state).(header := state.header, pc := Running)
      ensures ok ==> if old(state.recreate) then IsInitialized(state.header) else state.header == old(state.header)
    {
      MarkersDiffer();
      if !state.recreate {
        Do(Reuse);
        return true;
      }
      ok := Try(Mark, works);
    }
  }

  /** The key can be fetched, and formatting, if asked for, and opening succeed. */
  predicate LuksWorks(recreate: bool, noise: Content, works: Step -> bool) {
    && works(Decide)
    && (recreate ==> works(WipeHeader) && works(WriteHeader(noise)) && works(AddKeyslot))
    && works(Open)
  }

  /** The COW device is wiped if it may be, kept if it holds a snapshot, and protected otherwise. */
  predicate CowWorks(c: Config, found: Content, works: Step -> bool) {
    if c.location.Disk? || found.NoSignatures? then works(WipeCow) else found.SnapshotCow?
  }

  /** The backend goes on with what it finds on the opened volume, and its operations succeed. */
  predicate BackendWorks(c: Config, recreate: bool, found: Content, works: Step -> bool) {
    match c.backend
    case Overlayfs => if recreate then works(MakeExt4) else found.Ext4? && works(ResizeExt4)
    case DmSnapshot => CowWorks(c, found, works) && works(CreateSnapshot)
  }

  function BackendLeaves(c: Config): Content {
    match c.backend
    case Overlayfs => Ext4
    case DmSnapshot => if c.location.DiskPersist? then SnapshotCow else NoSignatures
  }
}
