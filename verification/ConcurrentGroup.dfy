/** A group whose behaviour is changed while readers are being added: what its locks keep apart, and
    what they do not. */
module ConcurrentGroups {
  import opened Basics
  import opened Devices
  import opened ReaderGroups

  /** How far an addition has come: about to delete, about to add, or about to insert the reader. */
  datatype Progress = Validated | Emptied | Configured

  /** A reader on its way into the group, with the behaviour that was read for it and the ROSpec made of that. */
  datatype Pending = Pending(name: string, reader: TagReader, validated: Behavior, spec: ROSpec, progress: Progress)

  /** `failed` are the devices whose last replacement was reported as failed; `change` is the change of
      behaviour under way, if any, which holds the lock until all its workers have finished. */
  datatype Group = Group(
    readers: map<string, TagReader>,
    env: Environment,
    behavior: Behavior,
    pending: seq<Pending>,
    fleet: Fleet,
    failed: set<string>,
    change: Option<Replacement>)

  datatype GroupStep =
    | BeginAdd(name: string, reader: TagReader)
    | Command(k: nat, ok: bool)
    | CommitAdd(k: nat)
    | Remove(name: string)
    | BeginChange(behavior: Behavior)
    | Work(name: string, ok: bool)
    | EndChange

  function Without(pending: seq<Pending>, k: nat): seq<Pending>
    requires k < |pending|
  {
    pending[..k] + pending[k + 1..]
  }

  ghost predicate AllAccept(g: Group, b: Behavior) {
    forall n :: n in g.readers ==> Accepts(g.readers[n], b, g.env)
  }

  ghost function SpecsFor(g: Group, b: Behavior): map<string, ROSpec>
    requires AllAccept(g, b)
  {
    map n | n in g.readers :: SpecFor(g.readers[n], b, g.env)
  }

  /** One command of an addition, which needs no lock; the addition ends if it fails. */
  function Commanded(g: Group, k: nat, ok: bool): Group
    requires k < |g.pending|
  {
    var p := g.pending[k];
    match p.progress
    case Validated =>
      if ok then g.(fleet := g.fleet[p.name := []], pending := g.pending[k := p.(progress := Emptied)])
      else g.(pending := Without(g.pending, k))
    case Emptied =>
      if !ok then g.(pending := Without(g.pending, k), failed := g.failed + {p.name})
      else g.(fleet := g.fleet[p.name := SpecsOn(g.fleet, p.name) + [p.spec]],
              pending := g.pending[k := p.(progress := Configured)])
    case Configured => g
  }

  /** One step of one worker of the change, on the devices as they are by then. */
  function Worked(g: Group, name: string, ok: bool): (g': Group)
    requires g.change.Some?
    ensures g'.change.Some? && g'.readers == g.readers && g'.pending == g.pending
  {
    var s := g.change.value.(fleet := g.fleet);
    if !Active(s, name) then g
    else
      var s' := StepWorker(s, name, ok);
      var failed :=
        if !s'.workers[name].Finished? then g.failed
        else if s'.workers[name].result.Some? then g.failed + {name}
        else g.failed - {name};
      g.(fleet := s'.fleet, change := Some(s'), failed := failed)
  }

  /** The reader of a pending addition can be inserted. */
  predicate Insertable(g: Group, k: nat) {
    k < |g.pending| && g.pending[k].progress.Configured? && g.change.None?
  }

  /** Validation, insertion, removal and the beginning of a change wait for a change that is under way. */
  ghost function GroupNext(g: Group, step: GroupStep): Group {
    match step
    case BeginAdd(name, r) =>
      if g.change.None? && Accepts(r, g.behavior, g.env)
      then g.(pending := g.pending + [Pending(name, r, g.behavior, SpecFor(r, g.behavior, g.env), Validated)])
      else g
    case Command(k, ok) =>
      if k < |g.pending| then Commanded(g, k, ok) else g
    case CommitAdd(k) =>
      if Insertable(g, k)
      then g.(readers := g.readers[g.pending[k].name := g.pending[k].reader],
              pending := Without(g.pending, k), failed := g.failed - {g.pending[k].name})
      else g
    case Remove(name) =>
      if g.change.None? then g.(readers := g.readers - {name}) else g
    case BeginChange(b) =>
      if g.change.None? && AllAccept(g, b)
      then g.(behavior := b, change := Some(Begin(SpecsFor(g, b), g.fleet)))
      else g
    case Work(name, ok) =>
      if g.change.Some? then Worked(g, name, ok) else g
    case EndChange =>
      if g.change.Some? && AllFinished(g.change.value) then g.(change := None) else g
  }

  /** Only an insertion makes a member and only a removal ends a membership, both only while no change is
      under way; and only a change that all members accept sets a behaviour. */
  lemma MembersAfter(g: Group, step: GroupStep, n: string)
    ensures var g' := GroupNext(g, step);
            var inserts := step.CommitAdd? && Insertable(g, step.k) && g.pending[step.k].name == n;
            && (n in g'.readers <==> inserts || (n in g.readers && !(step == Remove(n) && g.change.None?)))
            && (n in g'.readers ==> g'.readers[n] == if inserts then g.pending[step.k].reader else g.readers[n])
            && g'.env == g.env
            && g'.behavior == if step.BeginChange? && g.change.None? && AllAccept(g, step.behavior) then step.behavior
                              else g.behavior
  {
    hide AllAccept, StepWorker;
  }

  ghost function GroupRun(g: Group, steps: seq<GroupStep>): Group {
    if steps == [] then g else GroupNext(GroupRun(g, steps[..|steps| - 1]), steps[|steps| - 1])
  }

  lemma GroupRunSnoc(g: Group, steps: seq<GroupStep>, step: GroupStep)
    ensures GroupRun(g, steps + [step]) == GroupNext(GroupRun(g, steps), step)
  {
    assert (steps + [step])[..|steps|] == steps;
  }

  // ---- What holds throughout a run ----

  ghost predicate Throughout(g: Group, steps: seq<GroupStep>, p: Group -> bool) {
    forall i :: 0 <= i <= |steps| ==> p(GroupRun(g, steps[..i]))
  }

  ghost predicate Never(g: Group, steps: seq<GroupStep>, q: (Group, GroupStep) -> bool) {
    forall i :: 0 <= i < |steps| ==> !q(GroupRun(g, steps[..i]), steps[i])
  }

  lemma ThroughoutSnoc(g: Group, init: seq<GroupStep>, step: GroupStep, p: Group -> bool)
    ensures Throughout(g, init + [step], p) <==> Throughout(g, init, p) && p(GroupNext(GroupRun(g, init), step))
    ensures Throughout(g, init, p) ==> p(GroupRun(g, init))
  {
    GroupRunSnoc(g, init, step);
    hide GroupRun, GroupNext;
    var steps, n := init + [step], |init|;
    assert forall i :: 0 <= i <= n ==> steps[..i] == init[..i];
    assert steps[..n + 1] == steps && init[..n] == init;
  }

  lemma NeverSnoc(g: Group, init: seq<GroupStep>, step: GroupStep, q: (Group, GroupStep) -> bool)
    ensures Never(g, init + [step], q) <==> Never(g, init, q) && !q(GroupRun(g, init), step)
  {
    hide GroupRun, GroupNext;
    var steps, n := init + [step], |init|;
    assert steps[..n] == init && steps[n] == step;
    assert forall i :: 0 <= i < n ==> steps[..i] == init[..i] && steps[i] == init[i];
  }

  /** If `q` are exactly the steps that end `p`, then `p` holds throughout a run exactly if none of
      its steps is such a step. */
  lemma {:induction false} ThroughoutIffNever(
      g: Group, steps: seq<GroupStep>, p: Group -> bool, q: (Group, GroupStep) -> bool)
    requires p(g)
    requires forall h, step :: p(h) ==> (p(GroupNext(h, step)) <==> !q(h, step))
    ensures Throughout(g, steps, p) <==> Never(g, steps, q)
  {
    if steps != [] {
      var init, step := steps[..|steps| - 1], steps[|steps| - 1];
      assert steps == init + [step];
      hide GroupRun, GroupNext, Throughout, Never;
      ThroughoutIffNever(g, init, p, q);
      ThroughoutSnoc(g, init, step, p);
      NeverSnoc(g, init, step, q);
    }
  }

  // ---- Do all members accept the behaviour? ----

  ghost predicate GroupAgrees(g: Group) {
    AllAccept(g, g.behavior)
  }

  /** A reader is inserted that refuses the behaviour that holds by then. */
  ghost predicate Misplaces(g: Group, step: GroupStep) {
    && step.CommitAdd? && Insertable(g, step.k)
    && !Accepts(g.pending[step.k].reader, g.behavior, g.env)
  }

  /** Only an insertion can bring disagreement into the group, and it does so exactly when the reader
      refuses the behaviour that holds by then. */
  lemma InsertionDecides(g: Group, step: GroupStep)
    requires GroupAgrees(g)
    ensures GroupAgrees(GroupNext(g, step)) <==> !Misplaces(g, step)
  {
    hide StepWorker;
    if step.CommitAdd? && Insertable(g, step.k) {
      var g' := GroupNext(g, step);
      assert g'.readers[g.pending[step.k].name] == g.pending[step.k].reader;
    }
  }

  ghost predicate AgreesThroughout(g: Group, steps: seq<GroupStep>) {
    Throughout(g, steps, h => GroupAgrees(h))
  }

  /** Over every run with any number of concurrent additions: all members accept the group's behaviour
      throughout if and only if no reader is inserted that refuses the behaviour by then. */
  lemma AgreesIffNeverMisplaces(g: Group, steps: seq<GroupStep>)
    requires GroupAgrees(g)
    ensures AgreesThroughout(g, steps) <==> Never(g, steps, (h, step) => Misplaces(h, step))
  {
    hide GroupNext, GroupAgrees, Misplaces, Never, Throughout;
    forall h, step | GroupAgrees(h)
      ensures GroupAgrees(GroupNext(h, step)) <==> !Misplaces(h, step)
    {
      InsertionDecides(h, step);
    }
    ThroughoutIffNever(g, steps, h => GroupAgrees(h), (h, step) => Misplaces(h, step));
  }

  // ---- Does every device have the ROSpec for the behaviour? ----

  /** The device has been emptied for a new reader. */
  ghost predicate InFlux(g: Group, name: string) {
    exists k :: 0 <= k < |g.pending| && g.pending[k].name == name && !g.pending[k].progress.Validated?
  }

  /** Another addition than the given one has emptied its device. */
  ghost predicate OtherInFlux(g: Group, k: nat)
    requires k < |g.pending|
  {
    exists j :: 0 <= j < |g.pending| && j != k && g.pending[j].name == g.pending[k].name
                && !g.pending[j].progress.Validated?
  }

  /** The change under way has still to do with the device. */
  predicate Busy(g: Group, name: string) {
    g.change.Some? && name in g.change.value.workers && !g.change.value.workers[name].Finished?
  }

  /** Every member whose last replacement did not fail, and is over, has exactly the ROSpec for the
      group's behaviour. */
  ghost predicate AllConfigured(g: Group) {
    && GroupAgrees(g)
    && forall n :: n in g.readers && n !in g.failed && !InFlux(g, n) && !Busy(g, n) ==>
         SpecsOn(g.fleet, n) == [SpecFor(g.readers[n], g.behavior, g.env)]
  }

  /** A change under way is for the readers and the behaviour that its lock protects. */
  ghost predicate InOrder(g: Group) {
    g.change.Some? ==>
      && GroupAgrees(g)
      && g.change.value.targets == SpecsFor(g, g.behavior)
      && g.change.value.workers.Keys == g.readers.Keys
  }

  /** A reader is inserted whose device does not hold the ROSpec for the behaviour by then; or a worker
      adds its ROSpec to a device that something else has filled since it was emptied. */
  ghost predicate Misconfigures(g: Group, step: GroupStep) {
    match step
    case CommitAdd(k) =>
      && Insertable(g, k)
      && var p := g.pending[k];
      || !Accepts(p.reader, g.behavior, g.env)
      || (!OtherInFlux(g, k) && SpecsOn(g.fleet, p.name) != [SpecFor(p.reader, g.behavior, g.env)])
    case Work(name, ok) =>
      && Busy(g, name) && g.change.value.workers[name].Adding? && ok
      && !InFlux(g, name) && SpecsOn(g.fleet, name) != []
    case _ => false
  }

  lemma FluxWithout(g: Group, g': Group, k: nat, n: string)
    requires k < |g.pending| && g'.pending == Without(g.pending, k)
    ensures InFlux(g', n) <==> if n == g.pending[k].name then OtherInFlux(g, k) else InFlux(g, n)
  {
    if InFlux(g', n) {
      var j :| 0 <= j < |g'.pending| && g'.pending[j].name == n && !g'.pending[j].progress.Validated?;
      assert g.pending[if j < k then j else j + 1] == g'.pending[j];
    }
    if n != g.pending[k].name && InFlux(g, n) {
      var j :| 0 <= j < |g.pending| && g.pending[j].name == n && !g.pending[j].progress.Validated?;
      assert g'.pending[if j < k then j else j - 1] == g.pending[j];
    }
    if n == g.pending[k].name && OtherInFlux(g, k) {
      var j :| 0 <= j < |g.pending| && j != k && g.pending[j].name == n && !g.pending[j].progress.Validated?;
      assert g'.pending[if j < k then j else j - 1] == g.pending[j];
    }
  }

  lemma FluxWith(g: Group, g': Group, k: nat, p: Pending, n: string)
    requires k < |g.pending| && g'.pending == g.pending[k := p]
    requires p.name == g.pending[k].name && !p.progress.Validated?
    ensures InFlux(g', n) <==> n == p.name || InFlux(g, n)
  {
    if n == p.name {
      assert g'.pending[k] == p;
    } else if InFlux(g, n) {
      var j :| 0 <= j < |g.pending| && g.pending[j].name == n && !g.pending[j].progress.Validated?;
      assert g'.pending[j] == g.pending[j];
    }
  }

  lemma FluxBegun(g: Group, g': Group, p: Pending, n: string)
    requires g'.pending == g.pending + [p] && p.progress.Validated?
    ensures InFlux(g', n) <==> InFlux(g, n)
  {
    if InFlux(g, n) {
      var j :| 0 <= j < |g.pending| && g.pending[j].name == n && !g.pending[j].progress.Validated?;
      assert g'.pending[j] == g.pending[j];
    }
  }

  lemma CommandConfigured(g: Group, k: nat, ok: bool)
    requires AllConfigured(g) && k < |g.pending|
    ensures AllConfigured(Commanded(g, k, ok))
  {
    var g', p := Commanded(g, k, ok), g.pending[k];
    forall n
      ensures p.progress.Configured? ==> InFlux(g', n) == InFlux(g, n)
      ensures ok && !p.progress.Configured? ==> (InFlux(g', n) <==> n == p.name || InFlux(g, n))
      ensures !ok && n != p.name ==> (InFlux(g', n) <==> InFlux(g, n))
      ensures !ok && p.progress.Validated? ==> (InFlux(g', n) <==> InFlux(g, n))
    {
      if p.progress.Configured? {
      } else if ok {
        FluxWith(g, g', k, g'.pending[k], n);
      } else {
        FluxWithout(g, g', k, n);
      }
    }
    hide InFlux, SpecFor, Accepts;
  }

  lemma CommitConfigured(g: Group, k: nat)
    requires AllConfigured(g) && Insertable(g, k)
    ensures AllConfigured(GroupNext(g, CommitAdd(k))) <==> !Misconfigures(g, CommitAdd(k))
  {
    var g', p := GroupNext(g, CommitAdd(k)), g.pending[k];
    forall n
      ensures InFlux(g', n) <==> if n == p.name then OtherInFlux(g, k) else InFlux(g, n)
    {
      FluxWithout(g, g', k, n);
    }
    hide InFlux, OtherInFlux, SpecFor, Accepts;
    assert g'.readers[p.name] == p.reader;
    assert forall n :: n in g.readers && n != p.name ==> n in g'.readers && g'.readers[n] == g.readers[n];
  }

  lemma WorkConfigured(g: Group, name: string, ok: bool)
    requires InOrder(g) && AllConfigured(g) && g.change.Some?
    ensures InOrder(Worked(g, name, ok))
    ensures AllConfigured(Worked(g, name, ok)) <==> !Misconfigures(g, Work(name, ok))
  {
    var g' := Worked(g, name, ok);
    assert forall n :: InFlux(g', n) == InFlux(g, n);
    hide InFlux, SpecFor, Accepts;
    var s := g.change.value;
    if Active(s.(fleet := g.fleet), name) && s.workers[name].Adding? && ok {
      assert SpecsOn(g'.fleet, name) == SpecsOn(g.fleet, name) + [s.targets[name]];
      assert !Busy(g', name) && name !in g'.failed;
    }
  }

  lemma BeginConfigured(g: Group, b: Behavior)
    requires InOrder(g) && AllConfigured(g)
    ensures InOrder(GroupNext(g, BeginChange(b))) && AllConfigured(GroupNext(g, BeginChange(b)))
  {
    hide InFlux, SpecFor, Accepts;
    var g' := GroupNext(g, BeginChange(b));
    if g.change.None? && AllAccept(g, b) {
      assert SpecsFor(g', b) == SpecsFor(g, b);
      assert forall n :: n in g'.readers ==> Busy(g', n);
    }
  }

  lemma OrderKept(g: Group, step: GroupStep)
    requires InOrder(g)
    ensures InOrder(GroupNext(g, step))
  {
    hide SpecFor, Accepts, InFlux;
    if step.BeginChange? && g.change.None? && AllAccept(g, step.behavior) {
      assert SpecsFor(GroupNext(g, step), step.behavior) == SpecsFor(g, step.behavior);
    }
    if g.change.Some? && step.Command? && step.k < |g.pending| {
      assert SpecsFor(GroupNext(g, step), g.behavior) == SpecsFor(g, g.behavior);
    }
  }

  lemma StepConfigured(g: Group, step: GroupStep)
    requires InOrder(g) && AllConfigured(g)
    ensures InOrder(GroupNext(g, step))
    ensures AllConfigured(GroupNext(g, step)) <==> !Misconfigures(g, step)
  {
    OrderKept(g, step);
    match step {
      case BeginAdd(name, r) =>
        var g' := GroupNext(g, step);
        if g' != g {
          forall n
            ensures InFlux(g', n) <==> InFlux(g, n)
          {
            FluxBegun(g, g', g'.pending[|g.pending|], n);
          }
        }
        hide InFlux, SpecFor, Accepts;
      case Command(k, ok) =>
        if k < |g.pending| {
          CommandConfigured(g, k, ok);
        }
        hide AllConfigured, SpecFor, Accepts;
      case CommitAdd(k) =>
        if Insertable(g, k) {
          CommitConfigured(g, k);
        }
        hide AllConfigured, SpecFor, Accepts;
      case Remove(_) => hide SpecFor, Accepts;
      case BeginChange(b) => BeginConfigured(g, b);
      case Work(name, ok) =>
        if g.change.Some? {
          WorkConfigured(g, name, ok);
        }
        hide AllConfigured, InOrder, Worked;
      case EndChange => hide SpecFor, Accepts;
    }
  }

  ghost predicate ConfiguredThroughout(g: Group, steps: seq<GroupStep>) {
    Throughout(g, steps, h => AllConfigured(h))
  }

  lemma OrderThroughout(g: Group, steps: seq<GroupStep>)
    requires InOrder(g)
    ensures Throughout(g, steps, h => InOrder(h))
  {
    hide GroupNext, InOrder, Never, Throughout;
    forall h, step | InOrder(h)
      ensures InOrder(GroupNext(h, step))
    {
      OrderKept(h, step);
    }
    ThroughoutIffNever(g, steps, h => InOrder(h), (h, step) => false);
    assert Never(g, steps, (h, step) => false) by { NothingNever(g, steps); }
  }

  lemma NothingNever(g: Group, steps: seq<GroupStep>)
    ensures Never(g, steps, (h, step) => false)
  {
  }

  /** Over every run, with any interleaving of changes, additions and their commands, any of which may
      fail: every unfailed member's device holds exactly the ROSpec for the group's behaviour
      throughout if and only if no step of the run misconfigures one. */
  lemma ConfiguredIffNeverMisconfigures(g: Group, steps: seq<GroupStep>)
    requires InOrder(g) && AllConfigured(g)
    ensures ConfiguredThroughout(g, steps) <==> Never(g, steps, (h, step) => Misconfigures(h, step))
  {
    hide GroupNext, InOrder, AllConfigured, Misconfigures, Never, Throughout;
    var p, q := (h: Group) => InOrder(h) && AllConfigured(h), (h: Group, step: GroupStep) => Misconfigures(h, step);
    forall h, step | p(h)
      ensures p(GroupNext(h, step)) <==> !q(h, step)
    {
      StepConfigured(h, step);
    }
    ThroughoutIffNever(g, steps, p, q);
    OrderThroughout(g, steps);
    EachThroughout(g, steps);
  }

  lemma EachThroughout(g: Group, steps: seq<GroupStep>)
    requires Throughout(g, steps, h => InOrder(h))
    ensures Throughout(g, steps, h => InOrder(h) && AllConfigured(h)) <==> ConfiguredThroughout(g, steps)
  {
    hide GroupRun, InOrder, AllConfigured;
  }

  // ---- Runs in which no present member is added again during a change ----

  ghost predicate BeingAdded(g: Group, name: string) {
    exists k :: 0 <= k < |g.pending| && g.pending[k].name == name
  }

  ghost predicate OneAddEach(g: Group) {
    forall j, k :: 0 <= j < k < |g.pending| ==> g.pending[j].name != g.pending[k].name
  }

  /** No pending addition is for a member. */
  ghost predicate NewcomersOnly(g: Group) {
    forall k :: 0 <= k < |g.pending| ==> g.pending[k].name !in g.readers
  }

  /** A pending reader has the ROSpec of the behaviour it was validated for, and its device what the
      addition has left there. */
  ghost predicate PendingHolds(g: Group, p: Pending) {
    && Accepts(p.reader, p.validated, g.env) && p.spec == SpecFor(p.reader, p.validated, g.env)
    && match p.progress
       case Validated => true
       case Emptied => SpecsOn(g.fleet, p.name) == []
       case Configured => SpecsOn(g.fleet, p.name) == [p.spec]
  }

  /** Additions and workers do not meet on any device. */
  ghost predicate Tidy(g: Group) {
    && OneAddEach(g)
    && (forall k :: 0 <= k < |g.pending| ==> PendingHolds(g, g.pending[k]))
    && (g.change.Some? ==>
          && NewcomersOnly(g)
          && forall n :: n in g.change.value.workers && g.change.value.workers[n].Adding? ==> SpecsOn(g.fleet, n) == [])
  }

  /** No reader is added twice at a time, and no change begins while a member is being added again. */
  ghost predicate Unmixed(g: Group, step: GroupStep) {
    match step
    case BeginAdd(name, _) => !BeingAdded(g, name)
    case BeginChange(_) => NewcomersOnly(g)
    case _ => true
  }

  /** A reader is inserted that would make another ROSpec, or none, for the behaviour by then. */
  ghost predicate Outdated(g: Group, step: GroupStep) {
    && step.CommitAdd? && Insertable(g, step.k)
    && var p := g.pending[step.k];
       !Accepts(p.reader, g.behavior, g.env) || p.spec != SpecFor(p.reader, g.behavior, g.env)
  }

  lemma TidyStep(g: Group, step: GroupStep)
    requires InOrder(g) && Tidy(g) && Unmixed(g, step)
    ensures Tidy(GroupNext(g, step))
  {
    match step {
      case BeginAdd(_, _) => hide StepWorker, InFlux;
      case Command(k, ok) =>
        if k < |g.pending| {
          TidyCommand(g, k, ok);
        }
      case Work(name, ok) =>
        if g.change.Some? {
          TidyWork(g, name, ok);
        }
      case _ => hide SpecFor, Accepts, StepWorker, InFlux;
    }
  }

  lemma TidyCommand(g: Group, k: nat, ok: bool)
    requires InOrder(g) && Tidy(g) && k < |g.pending|
    ensures Tidy(Commanded(g, k, ok))
  {
    hide SpecFor, Accepts, SpecsFor;
    assert PendingHolds(g, g.pending[k]);
  }

  lemma TidyWork(g: Group, name: string, ok: bool)
    requires InOrder(g) && Tidy(g) && g.change.Some?
    ensures Tidy(Worked(g, name, ok))
  {
    hide SpecFor, Accepts, SpecsFor;
  }

  lemma OnlyOutdatedMisconfigure(g: Group, step: GroupStep)
    requires InOrder(g) && Tidy(g)
    ensures Misconfigures(g, step) <==> Outdated(g, step)
  {
    hide SpecFor, Accepts, SpecsFor;
    if step.CommitAdd? && Insertable(g, step.k) {
      assert PendingHolds(g, g.pending[step.k]);
      assert !OtherInFlux(g, step.k);
    }
  }

  ghost predicate UnmixedThroughout(g: Group, steps: seq<GroupStep>) {
    Never(g, steps, (h, step) => !Unmixed(h, step))
  }

  lemma UnmixedSnoc(g: Group, init: seq<GroupStep>, step: GroupStep)
    ensures UnmixedThroughout(g, init + [step]) <==> UnmixedThroughout(g, init) && Unmixed(GroupRun(g, init), step)
  {
    hide GroupRun, GroupNext, Unmixed, Never;
    NeverSnoc(g, init, step, (h, step) => !Unmixed(h, step));
  }

  /** Over every run that keeps members' additions and changes apart, each insertion finds on the device
      exactly the ROSpec of the behaviour that its reader was validated for. */
  lemma {:induction false} TidyOverRuns(g: Group, steps: seq<GroupStep>)
    requires InOrder(g) && Tidy(g) && UnmixedThroughout(g, steps)
    ensures InOrder(GroupRun(g, steps)) && Tidy(GroupRun(g, steps))
  {
    if steps != [] {
      hide GroupRun, GroupNext, InOrder, Tidy, Unmixed, UnmixedThroughout;
      var init, step := steps[..|steps| - 1], steps[|steps| - 1];
      assert steps == init + [step];
      GroupRunSnoc(g, init, step);
      UnmixedSnoc(g, init, step);
      TidyOverRuns(g, init);
      TidyStep(GroupRun(g, init), step);
      OrderKept(GroupRun(g, init), step);
    }
  }

  lemma NeverBefore(g: Group, steps: seq<GroupStep>, i: nat, q: (Group, GroupStep) -> bool)
    requires i <= |steps| && Never(g, steps, q)
    ensures Never(g, steps[..i], q)
  {
    hide GroupRun;
    assert forall j :: 0 <= j < i ==> steps[..i][..j] == steps[..j] && steps[..i][j] == steps[j];
  }

  lemma MisconfiguresOverRuns(g: Group, steps: seq<GroupStep>)
    requires InOrder(g) && Tidy(g) && UnmixedThroughout(g, steps)
    ensures Never(g, steps, (h, step) => Misconfigures(h, step)) <==> Never(g, steps, (h, step) => Outdated(h, step))
  {
    forall i | 0 <= i < |steps|
      ensures Misconfigures(GroupRun(g, steps[..i]), steps[i]) <==> Outdated(GroupRun(g, steps[..i]), steps[i])
    {
      hide GroupRun, InOrder, Tidy, Misconfigures, Outdated, Never;
      NeverBefore(g, steps, i, (h, step) => !Unmixed(h, step));
      TidyOverRuns(g, steps[..i]);
      OnlyOutdatedMisconfigure(GroupRun(g, steps[..i]), steps[i]);
    }
    hide GroupRun, Misconfigures, Outdated;
  }

  /** What a caller can see to: in such runs the members' devices hold the ROSpecs for the behaviour
      throughout if and only if every reader inserted would still make the ROSpec it was sent. */
  lemma ConfiguredIffNeverOutdated(g: Group, steps: seq<GroupStep>)
    requires InOrder(g) && AllConfigured(g) && Tidy(g) && UnmixedThroughout(g, steps)
    ensures ConfiguredThroughout(g, steps) <==> Never(g, steps, (h, step) => Outdated(h, step))
  {
    ConfiguredIffNeverMisconfigures(g, steps);
    MisconfiguresOverRuns(g, steps);
  }

  // ---- Runs in which additions and changes are kept apart altogether ----

  /** Every pending reader was validated for the behaviour that still holds. */
  ghost predicate Quiet(g: Group) {
    && InOrder(g) && Tidy(g)
    && (g.change.Some? ==> g.pending == [])
    && forall k :: 0 <= k < |g.pending| ==> g.pending[k].validated == g.behavior
  }

  /** No behaviour is changed while a reader is being added, and no reader added twice at a time. */
  ghost predicate KeepsApart(g: Group, step: GroupStep) {
    match step
    case BeginAdd(name, _) => !BeingAdded(g, name)
    case BeginChange(_) => g.pending == []
    case _ => true
  }

  lemma ApartStep(g: Group, step: GroupStep)
    requires Quiet(g) && AllConfigured(g) && KeepsApart(g, step)
    ensures Quiet(GroupNext(g, step)) && AllConfigured(GroupNext(g, step))
  {
    TidyStep(g, step);
    StepConfigured(g, step);
    OnlyOutdatedMisconfigure(g, step);
    assert step.CommitAdd? && Insertable(g, step.k) ==> PendingHolds(g, g.pending[step.k]);
    hide SpecFor, Accepts, InOrder, AllConfigured, Misconfigures, Tidy, StepWorker;
  }

  /** Over every run that keeps changes and additions apart, whatever commands fail: every member accepts
      the group's behaviour, and all but those reported as failed have exactly its ROSpec. */
  lemma {:induction false} GroupAgreesOverRuns(g: Group, steps: seq<GroupStep>)
    requires Quiet(g) && AllConfigured(g)
    requires forall i :: 0 <= i < |steps| ==> KeepsApart(GroupRun(g, steps[..i]), steps[i])
    ensures Quiet(GroupRun(g, steps)) && AllConfigured(GroupRun(g, steps))
  {
    hide GroupNext, Quiet, AllConfigured, KeepsApart;
    if steps != [] {
      var n := |steps| - 1;
      forall i | 0 <= i < n
        ensures KeepsApart(GroupRun(g, steps[..n][..i]), steps[..n][i])
      {
        assert steps[..n][..i] == steps[..i];
      }
      GroupAgreesOverRuns(g, steps[..n]);
      ApartStep(GroupRun(g, steps[..n]), steps[n]);
    }
  }

  // ---- And runs in which they meet ----

  /** What a change during an addition does to a newcomer, in any run that keeps members' additions and
      changes apart: the change does not reach the reader, which enters the group with the ROSpec of
      the behaviour it was validated for, even if it refuses the one that holds by then. */
  lemma ChangeDuringAdd(g: Group, steps: seq<GroupStep>, k: nat)
    requires InOrder(g) && Tidy(g) && UnmixedThroughout(g, steps)
    requires Insertable(GroupRun(g, steps), k) && GroupAgrees(GroupRun(g, steps))
    ensures var h := GroupRun(g, steps);
            var p, h' := h.pending[k], GroupNext(h, CommitAdd(k));
            && p.name in h'.readers && h'.readers[p.name] == p.reader && h'.behavior == h.behavior
            && Accepts(p.reader, p.validated, h.env)
            && SpecsOn(h'.fleet, p.name) == [SpecFor(p.reader, p.validated, h.env)]
            && (GroupAgrees(h') <==> Accepts(p.reader, h.behavior, h.env))
  {
    TidyOverRuns(g, steps);
    var h := GroupRun(g, steps);
    assert PendingHolds(h, h.pending[k]);
    InsertionDecides(h, CommitAdd(k));
    hide Accepts, SpecFor, GroupRun, GroupAgrees;
  }

  lemma {:induction false} GroupRunConcat(g: Group, a: seq<GroupStep>, b: seq<GroupStep>)
    ensures GroupRun(g, a + b) == GroupRun(GroupRun(g, a), b)
  {
    hide GroupNext;
    if b == [] {
      assert a + b == a;
    } else {
      var init, step := b[..|b| - 1], b[|b| - 1];
      assert a + b == a + init + [step] && b == init + [step];
      GroupRunConcat(g, a, init);
      GroupRunSnoc(g, a + init, step);
    }
  }

  lemma GroupRunOne(g: Group, step: GroupStep)
    ensures GroupRun(g, [step]) == GroupNext(g, step)
  {
    assert [step] == [] + [step];
    GroupRunSnoc(g, [], step);
  }

  lemma GroupRunTwo(g: Group, a: GroupStep, b: GroupStep)
    ensures GroupRun(g, [a, b]) == GroupNext(GroupNext(g, a), b)
  {
    assert [a, b] == [a] + [b];
    GroupRunOne(g, a);
    GroupRunSnoc(g, [a], b);
  }

  lemma GroupRunThree(g: Group, init: seq<GroupStep>, a: GroupStep, b: GroupStep, c: GroupStep)
    ensures GroupRun(g, init + [a] + [b] + [c]) == GroupNext(GroupNext(GroupNext(GroupRun(g, init), a), b), c)
  {
    GroupRunSnoc(g, init, a);
    GroupRunSnoc(g, init + [a], b);
    GroupRunSnoc(g, init + [a] + [b], c);
    hide GroupRun, GroupNext;
  }

  /** The group as it is once an addition, alone, has come as far as `progress`. */
  function AddedTo(g: Group, name: string, r: TagReader, progress: Progress): Group
    requires Accepts(r, g.behavior, g.env)
  {
    var spec := SpecFor(r, g.behavior, g.env);
    g.(pending := [Pending(name, r, g.behavior, spec, progress)],
       fleet := match progress
                case Validated => g.fleet
                case Emptied => g.fleet[name := []]
                case Configured => g.fleet[name := [spec]])
  }

  lemma BeginAlone(g: Group, name: string, r: TagReader)
    requires g.pending == [] && g.change.None? && Accepts(r, g.behavior, g.env)
    ensures GroupNext(g, BeginAdd(name, r)) == AddedTo(g, name, r, Validated)
    ensures GroupRun(g, [BeginAdd(name, r), Command(0, true)]) == AddedTo(g, name, r, Emptied)
  {
    GroupRunTwo(g, BeginAdd(name, r), Command(0, true));
    hide GroupRun, Accepts, SpecFor;
  }

  lemma AddedAlone(g: Group, name: string, r: TagReader)
    requires g.pending == [] && g.change.None? && Accepts(r, g.behavior, g.env)
    ensures GroupRun(g, [BeginAdd(name, r), Command(0, true), Command(0, true)]) == AddedTo(g, name, r, Configured)
  {
    BeginAlone(g, name, r);
    var two := [BeginAdd(name, r), Command(0, true)];
    assert [BeginAdd(name, r), Command(0, true), Command(0, true)] == two + [Command(0, true)];
    GroupRunSnoc(g, two, Command(0, true));
    hide GroupRun, Accepts, SpecFor;
    var spec := SpecFor(r, g.behavior, g.env);
    assert SpecsOn(g.fleet[name := []], name) + [spec] == [spec];
    assert g.fleet[name := []][name := [spec]] == g.fleet[name := [spec]];
  }

  /** A change in a group without members needs no worker. */
  lemma ChangeOfNone(g: Group, b: Behavior)
    requires g.readers == map[] && g.change.None?
    ensures GroupRun(g, [BeginChange(b), EndChange]) == g.(behavior := b)
  {
    GroupRunTwo(g, BeginChange(b), EndChange);
    hide GroupRun;
    var mid := GroupNext(g, BeginChange(b));
    assert mid.change.value.workers == map[];
  }

  function AddAround(name: string, r: TagReader, b: Behavior): seq<GroupStep> {
    [BeginAdd(name, r), Command(0, true), Command(0, true)] + [BeginChange(b), EndChange] + [CommitAdd(0)]
  }

  lemma AddedAround(g: Group, name: string, r: TagReader, b: Behavior)
    requires g.readers == map[] && g.pending == [] && g.change.None? && Accepts(r, g.behavior, g.env)
    ensures var g' := GroupRun(g, AddAround(name, r, b));
            && g' == g.(readers := map[name := r], behavior := b,
                        fleet := g.fleet[name := [SpecFor(r, g.behavior, g.env)]], failed := g.failed - {name})
            && !InFlux(g', name)
  {
    var add, change := [BeginAdd(name, r), Command(0, true), Command(0, true)], [BeginChange(b), EndChange];
    AddedAlone(g, name, r);
    GroupRunConcat(g, add, change);
    GroupRunSnoc(g, add + change, CommitAdd(0));
    var h := AddedTo(g, name, r, Configured);
    ChangeOfNone(h, b);
    hide GroupRun, Accepts, SpecFor;
  }

  /** A reader for a device accepts what the device accepts. */
  ghost predicate Drives(r: TagReader, d: Device)
    requires Usable(d)
  {
    forall b, e :: Accepts(r, b, e) <==> ValidPort(d, b.gpiPort) && Transmit(d, b.powerMax, b.frequencies).Ok?
  }

  const MODE := ModeEntry(1, 0, 3, 640000, 1500, 6250)

  /** A device in a hopping region that cannot transmit below 10 dBm. */
  const TEN_DBM_DEVICE := Device(
    [MODE], [PowerEntry(1, 1000), PowerEntry(2, 3000)],
    FrequencyInformation(true, [HopTable(1, [915250])], None), 1, 0)

  const LOW_POWER := Behavior(None, 500, [], 0)
  const MEDIUM_POWER := Behavior(None, 2000, [], 0)
  const HIGH_POWER := Behavior(None, 3000, [], 0)

  function TenDBmReader(): TagReader {
    TagReader((b: Behavior, e: Environment) =>
      if !ValidPort(TEN_DBM_DEVICE, b.gpiPort) then Err(InvalidGPIPort)
      else if b.powerMax < 1000 then Err(PowerTooLow)
      else Ok(ROSpec(1, RFTransmitter(1, 0, if b.powerMax < 3000 then 1 else 2), MODE.modeID, MODE.minTariTime, b)))
  }

  lemma TenDBmReaderDrives()
    ensures Usable(TEN_DBM_DEVICE) && Drives(TenDBmReader(), TEN_DBM_DEVICE)
  {
    var d, r := TEN_DBM_DEVICE, TenDBmReader();
    forall b: Behavior, e: Environment
      ensures Accepts(r, b, e) <==> ValidPort(d, b.gpiPort) && Transmit(d, b.powerMax, b.frequencies).Ok?
    {
      TransmitIffPossible(d, b.powerMax, b.frequencies);
      assert d.pwrMinToMax[0].value == 1000;
    }
  }

  /** For instance, a reader that cannot go below 10 dBm is being added while the group, that has no
      members yet, is turned down to 5 dBm. */
  lemma ChangeDuringAddBreaksAgreement(g: Group)
    requires g.readers == map[] && g.pending == [] && g.change.None? && g.behavior == HIGH_POWER
    ensures Usable(TEN_DBM_DEVICE) && Drives(TenDBmReader(), TEN_DBM_DEVICE)
    ensures GroupAgrees(g) && !GroupAgrees(GroupRun(g, AddAround("reader", TenDBmReader(), LOW_POWER)))
  {
    TenDBmReaderDrives();
    var r := TenDBmReader();
    AddedAround(g, "reader", r, LOW_POWER);
    hide GroupRun;
    assert GroupRun(g, AddAround("reader", r, LOW_POWER)).readers["reader"] == r;
    assert !Accepts(r, LOW_POWER, g.env);
  }

  /** Turned down to 20 dBm, which the reader accepts, the group agrees, but the reader's device goes on
      at 30 dBm, and nobody is told. */
  lemma ChangeDuringAddLeavesOldROSpec(g: Group)
    requires g.readers == map[] && g.pending == [] && g.change.None? && g.behavior == HIGH_POWER
    ensures AllConfigured(g)
    ensures var g' := GroupRun(g, AddAround("reader", TenDBmReader(), MEDIUM_POWER));
            && GroupAgrees(g') && "reader" !in g'.failed && !AllConfigured(g')
            && |SpecsOn(g'.fleet, "reader")| == 1 && SpecsOn(g'.fleet, "reader")[0].behavior == HIGH_POWER
  {
    var r := TenDBmReader();
    AddedAround(g, "reader", r, MEDIUM_POWER);
    hide GroupRun;
    var g' := GroupRun(g, AddAround("reader", r, MEDIUM_POWER));
    assert g'.readers["reader"] == r;
    assert SpecFor(r, HIGH_POWER, g.env) != SpecFor(r, MEDIUM_POWER, g.env);
  }

  // ---- A member that connects again during a change ----

  /** A change in a group of one, all commands of which succeed. */
  function ChangeOne(name: string, b: Behavior): seq<GroupStep> {
    [BeginChange(b), Work(name, true)] + [Work(name, true)]
  }

  /** Both commands of the only worker. */
  lemma WorkOfOne(g: Group, name: string, spec: ROSpec)
    requires g.change.Some? && g.change.value.targets == map[name := spec]
    requires g.change.value.workers == map[name := Deleting]
    ensures var g' := Worked(Worked(g, name, true), name, true);
            && g'.change.Some? && AllFinished(g'.change.value) && g'.change.value.errs == g.change.value.errs
            && g' == g.(fleet := g.fleet[name := [spec]], failed := g.failed - {name}, change := g'.change)
  {
    var s := g.change.value;
    var g1 := Worked(g, name, true);
    var s1 := s.(workers := s.workers[name := Adding], fleet := g.fleet[name := []]);
    assert g1 == g.(fleet := s1.fleet, change := Some(s1));
    var g2 := Worked(g1, name, true);
    assert SpecsOn(g1.fleet, name) + [spec] == [spec];
    assert g1.fleet[name := [spec]] == g.fleet[name := [spec]];
    assert g2.change.value.workers == s1.workers[name := Finished(None)];
  }

  lemma ChangeOfOne(g: Group, name: string, r: TagReader, b: Behavior)
    requires g.readers == map[name := r] && g.change.None? && Accepts(r, b, g.env)
    ensures var g' := GroupRun(g, ChangeOne(name, b));
            && g'.change.Some? && AllFinished(g'.change.value) && g'.change.value.errs == []
            && g' == g.(behavior := b, fleet := g.fleet[name := [SpecFor(r, b, g.env)]],
                        failed := g.failed - {name}, change := g'.change)
  {
    GroupRunTwo(g, BeginChange(b), Work(name, true));
    GroupRunSnoc(g, [BeginChange(b), Work(name, true)], Work(name, true));
    hide GroupRun, Accepts, SpecFor, Worked, AllFinished;
    var spec := SpecFor(r, b, g.env);
    var g1 := GroupNext(g, BeginChange(b));
    assert SpecsFor(g, b) == map[name := spec];
    assert g1.change.value.workers == map[name := Deleting];
    var g2 := GroupNext(g1, Work(name, true));
    assert g2 == Worked(g1, name, true) && GroupNext(g2, Work(name, true)) == Worked(g2, name, true);
    hide GroupNext, SpecsFor;
    WorkOfOne(g1, name, spec);
  }

  function ReconnectAround(name: string, r: TagReader, b: Behavior): seq<GroupStep> {
    [BeginAdd(name, r), Command(0, true)] + ChangeOne(name, b) + [EndChange] + [Command(0, true)] + [CommitAdd(0)]
  }

  /** The change falls between the addition's deletion and its addition: the device ends up with two
      ROSpecs, that of the new behaviour and that of the old one; nothing has failed. */
  lemma ReconnectionAroundChangeLeavesTwo(g: Group, name: string, r: TagReader, b: Behavior)
    requires g.readers == map[name := r] && g.pending == [] && g.change.None?
    requires Accepts(r, g.behavior, g.env) && Accepts(r, b, g.env)
    ensures var g' := GroupRun(g, ReconnectAround(name, r, b));
            && GroupAgrees(g') && name in g'.readers && name !in g'.failed
            && SpecsOn(g'.fleet, name) == [SpecFor(r, b, g.env), SpecFor(r, g.behavior, g.env)]
            && !AllConfigured(g')
  {
    var init := [BeginAdd(name, r), Command(0, true)] + ChangeOne(name, b);
    EmptiedThenChanged(g, name, r, b);
    GroupRunThree(g, init, EndChange, Command(0, true), CommitAdd(0));
    hide GroupRun, GroupNext, ChangeOne, Accepts, SpecFor, AllConfigured, GroupAgrees, AllFinished, SpecsOn;
    EndsAndAdds(GroupRun(g, init), name, r);
  }

  lemma EndsAndAdds(h: Group, name: string, r: TagReader)
    requires h.readers == map[name := r] && Accepts(r, h.behavior, h.env)
    requires h.change.Some? && AllFinished(h.change.value)
    requires |h.pending| == 1 && h.pending[0].name == name && h.pending[0].reader == r
    requires h.pending[0].progress.Emptied? && SpecsOn(h.fleet, name) == [SpecFor(r, h.behavior, h.env)]
    ensures var g' := GroupNext(GroupNext(GroupNext(h, EndChange), Command(0, true)), CommitAdd(0));
            && GroupAgrees(g') && name in g'.readers && name !in g'.failed
            && SpecsOn(g'.fleet, name) == [SpecFor(r, h.behavior, h.env), h.pending[0].spec]
            && !AllConfigured(g')
  {
    var g4 := GroupNext(h, EndChange);
    assert g4 == h.(change := None);
    hide GroupNext, Accepts, SpecFor, AllConfigured, GroupAgrees, AllFinished, SpecsOn;
    AddsBesides(g4, name, r);
  }

  lemma EmptiedThenChanged(g: Group, name: string, r: TagReader, b: Behavior)
    requires g.readers == map[name := r] && g.pending == [] && g.change.None?
    requires Accepts(r, g.behavior, g.env) && Accepts(r, b, g.env)
    ensures var h := GroupRun(g, [BeginAdd(name, r), Command(0, true)] + ChangeOne(name, b));
            && h.readers == g.readers && h.env == g.env && h.behavior == b
            && h.change.Some? && AllFinished(h.change.value)
            && h.pending == [Pending(name, r, g.behavior, SpecFor(r, g.behavior, g.env), Emptied)]
            && SpecsOn(h.fleet, name) == [SpecFor(r, b, g.env)]
  {
    BeginAlone(g, name, r);
    GroupRunConcat(g, [BeginAdd(name, r), Command(0, true)], ChangeOne(name, b));
    ChangeOfOne(AddedTo(g, name, r, Emptied), name, r, b);
    hide GroupRun, ChangeOne, Accepts, SpecFor, AllFinished;
  }

  /** The last two steps of an addition to a device that something else has configured meanwhile. */
  lemma AddsBesides(g: Group, name: string, r: TagReader)
    requires g.readers == map[name := r] && g.change.None? && Accepts(r, g.behavior, g.env)
    requires |g.pending| == 1 && g.pending[0].name == name && g.pending[0].reader == r
    requires g.pending[0].progress.Emptied? && SpecsOn(g.fleet, name) == [SpecFor(r, g.behavior, g.env)]
    ensures var g' := GroupNext(GroupNext(g, Command(0, true)), CommitAdd(0));
            && GroupAgrees(g') && g'.readers == map[name := r] && name !in g'.failed
            && SpecsOn(g'.fleet, name) == SpecsOn(g.fleet, name) + [g.pending[0].spec]
            && !AllConfigured(g')
  {
    hide Accepts, SpecFor;
    var g1 := GroupNext(g, Command(0, true));
    var g' := GroupNext(g1, CommitAdd(0));
    assert g'.pending == [] && !InFlux(g', name) && g'.readers == map[name := r];
    assert |SpecsOn(g'.fleet, name)| == 2;
  }

  /** The addition's deletion falls behind the change's own commands, and its addition fails: the change
      has no error to report, and yet the member's device is empty. */
  lemma ReconnectionBehindChangeLeavesNone(g: Group, name: string, r: TagReader, b: Behavior)
    requires g.readers == map[name := r] && g.pending == [] && g.change.None?
    requires Accepts(r, g.behavior, g.env) && Accepts(r, b, g.env)
    ensures var steps := [BeginAdd(name, r)] + ChangeOne(name, b) + [Command(0, true)] + [Command(0, false)];
            var g' := GroupRun(g, steps);
            && g'.change.Some? && AllFinished(g'.change.value) && g'.change.value.errs == []
            && GroupAgrees(g') && name in g'.readers && SpecsOn(g'.fleet, name) == []
  {
    var add, change := [BeginAdd(name, r)], ChangeOne(name, b);
    BeginAlone(g, name, r);
    GroupRunOne(g, BeginAdd(name, r));
    GroupRunConcat(g, add, change);
    var g1 := AddedTo(g, name, r, Validated);
    ChangeOfOne(g1, name, r, b);
    GroupRunSnoc(g, add + change, Command(0, true));
    GroupRunSnoc(g, add + change + [Command(0, true)], Command(0, false));
    hide GroupRun, Accepts, SpecFor;
    var g3 := GroupNext(GroupRun(g1, change), Command(0, true));
    assert SpecsOn(g3.fleet, name) == [] && g3.pending[0].progress.Emptied?;
    var g4 := GroupNext(g3, Command(0, false));
    assert g4.fleet == g3.fleet && g4.change == g3.change && g4.readers == map[name := r];
  }
}
