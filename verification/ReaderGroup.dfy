/** A group of readers that share one behaviour: readers are added and removed, and a change of
    behaviour is first validated for all of them and then sent to all of them concurrently. */
module ReaderGroups {
  import opened Basics
  import opened Devices

  const DEFAULT_ROSPEC_ID: uint32 := 1

  /** Anything that turns a behaviour into an ROSpec or refuses it. */
  datatype TagReader = TagReader(newROSpec: (Behavior, Environment) -> Result<ROSpec, Unsatisfiable>)

  /** The ROSpecs held by each device that the device service knows. */
  type Fleet = map<string, seq<ROSpec>>

  function SpecsOn(fleet: Fleet, name: string): seq<ROSpec> {
    if name in fleet then fleet[name] else []
  }

  // ---- The concurrent replacement of ROSpecs ----

  datatype Failure = DeleteFailed | AddFailed

  /** Where a worker is: about to delete, to add, or to report a failure; or finished. */
  datatype Worker = Deleting | Adding | Sending(failure: Failure) | Finished(result: Option<Failure>)

  datatype Replacement = Replacement(
    targets: map<string, ROSpec>,
    workers: map<string, Worker>,
    fleet: Fleet,
    errs: seq<string>,
    capacity: nat)

  function Begin(targets: map<string, ROSpec>, fleet: Fleet): Replacement {
    Replacement(targets, map d | d in targets :: Deleting, fleet, [], |targets|)
  }

  predicate Active(s: Replacement, name: string) {
    name in s.targets && name in s.workers && !s.workers[name].Finished?
  }

  /** A worker that has a failure to report waits while the channel is full. */
  predicate Blocked(s: Replacement, name: string) {
    name in s.workers && s.workers[name].Sending? && |s.errs| >= s.capacity
  }

  /** One step of one worker; `ok` is whether the device accepts the command it sends. */
  function StepWorker(s: Replacement, name: string, ok: bool): Replacement {
    if !Active(s, name) || Blocked(s, name) then s
    else
      match s.workers[name]
      case Deleting =>
        if ok then s.(workers := s.workers[name := Adding], fleet := s.fleet[name := []])
        else s.(workers := s.workers[name := Sending(DeleteFailed)])
      case Adding =>
        if ok then s.(workers := s.workers[name := Finished(None)],
                      fleet := s.fleet[name := SpecsOn(s.fleet, name) + [s.targets[name]]])
        else s.(workers := s.workers[name := Sending(AddFailed)])
      case Sending(f) =>
        s.(workers := s.workers[name := Finished(Some(f))], errs := s.errs + [name])
      case Finished(_) => s
  }

  datatype Choice = Choice(name: string, ok: bool)

  /** Any interleaving of the workers, with any pattern of failing commands. */
  function Interleave(s: Replacement, schedule: seq<Choice>): Replacement {
    if schedule == [] then s
    else
      var last := schedule[|schedule| - 1];
      StepWorker(Interleave(s, schedule[..|schedule| - 1]), last.name, last.ok)
  }

  /** What a device holds follows from where its worker is. */
  predicate DeviceMatches(w: Worker, now: seq<ROSpec>, before: seq<ROSpec>, target: ROSpec) {
    match w
    case Deleting => now == before
    case Adding => now == []
    case Sending(f) => now == if f.DeleteFailed? then before else []
    case Finished(None) => now == [target]
    case Finished(Some(f)) => now == if f.DeleteFailed? then before else []
  }

  ghost predicate Consistent(s: Replacement, targets: map<string, ROSpec>, before: Fleet) {
    && s.targets == targets && s.workers.Keys == targets.Keys && s.capacity == |targets|
    && (forall d :: d in targets ==> DeviceMatches(s.workers[d], SpecsOn(s.fleet, d), SpecsOn(before, d), targets[d]))
    && (forall d :: d !in targets ==> SpecsOn(s.fleet, d) == SpecsOn(before, d))
    && (forall d :: d in s.errs <==> d in targets && s.workers[d].Finished? && s.workers[d].result.Some?)
    && (forall i, j :: 0 <= i < j < |s.errs| ==> s.errs[i] != s.errs[j])
  }

  lemma BeginConsistent(targets: map<string, ROSpec>, fleet: Fleet)
    ensures Consistent(Begin(targets, fleet), targets, fleet)
  {
  }

  lemma StepConsistent(s: Replacement, targets: map<string, ROSpec>, before: Fleet, name: string, ok: bool)
    requires Consistent(s, targets, before)
    ensures Consistent(StepWorker(s, name, ok), targets, before)
  {
    if Active(s, name) && !Blocked(s, name) {
      match s.workers[name] {
        case Deleting => DeletingConsistent(s, targets, before, name, ok);
        case Adding => AddingConsistent(s, targets, before, name, ok);
        case Sending(_) => SendingConsistent(s, targets, before, name, ok);
        case Finished(_) =>
      }
    }
  }

  lemma DeletingConsistent(s: Replacement, targets: map<string, ROSpec>, before: Fleet, name: string, ok: bool)
    requires Consistent(s, targets, before) && Active(s, name) && !Blocked(s, name) && s.workers[name].Deleting?
    ensures Consistent(StepWorker(s, name, ok), targets, before)
  {
  }

  lemma AddingConsistent(s: Replacement, targets: map<string, ROSpec>, before: Fleet, name: string, ok: bool)
    requires Consistent(s, targets, before) && Active(s, name) && !Blocked(s, name) && s.workers[name].Adding?
    ensures Consistent(StepWorker(s, name, ok), targets, before)
  {
  }

  lemma SendingConsistent(s: Replacement, targets: map<string, ROSpec>, before: Fleet, name: string, ok: bool)
    requires Consistent(s, targets, before) && Active(s, name) && !Blocked(s, name) && s.workers[name].Sending?
    ensures Consistent(StepWorker(s, name, ok), targets, before)
  {
    assert name !in s.errs;
  }

  function Names(s: seq<string>): set<string> {
    set d | d in s
  }

  lemma {:induction false} DistinctNames(s: seq<string>)
    requires forall i, j :: 0 <= i < j < |s| ==> s[i] != s[j]
    ensures |Names(s)| == |s|
  {
    if s != [] {
      var n := |s| - 1;
      DistinctNames(s[..n]);
      assert Names(s) == Names(s[..n]) + {s[n]};
      assert s[n] !in Names(s[..n]);
    }
  }

  /** The channel has a place for every worker, so no send ever waits. */
  lemma NoSendBlocks(s: Replacement, targets: map<string, ROSpec>, before: Fleet, name: string)
    requires Consistent(s, targets, before)
    ensures !Blocked(s, name)
  {
    if name in s.workers && s.workers[name].Sending? {
      DistinctNames(s.errs);
      Fits(Names(s.errs), targets.Keys - {name});
      assert targets.Keys == (targets.Keys - {name}) + {name};
    }
  }

  lemma Fits<T>(a: set<T>, b: set<T>)
    requires a <= b
    ensures |a| <= |b|
  {
    assert b == a + (b - a);
  }

  /** Under every interleaving and every pattern of failures: no worker ever blocks, devices outside
      the group are untouched, and a device whose worker has finished holds exactly the new ROSpec,
      or none if only the addition failed, or what it held before if the deletion failed. The
      failures reported are exactly those of the finished workers that failed, one each. */
  lemma {:induction false} EveryInterleaving(
      targets: map<string, ROSpec>, before: Fleet, schedule: seq<Choice>, d: string)
    ensures var s := Interleave(Begin(targets, before), schedule);
            && Consistent(s, targets, before)
            && !Blocked(s, d)
            && (d in targets && s.workers[d].Finished? ==>
                  match s.workers[d].result
                  case None => d !in s.errs && SpecsOn(s.fleet, d) == [targets[d]]
                  case Some(AddFailed) => d in s.errs && SpecsOn(s.fleet, d) == []
                  case Some(DeleteFailed) => d in s.errs && SpecsOn(s.fleet, d) == SpecsOn(before, d))
  {
    hide StepWorker;
    var s0 := Begin(targets, before);
    if schedule == [] {
      BeginConsistent(targets, before);
    } else {
      var last := schedule[|schedule| - 1];
      EveryInterleaving(targets, before, schedule[..|schedule| - 1], d);
      StepConsistent(Interleave(s0, schedule[..|schedule| - 1]), targets, before, last.name, last.ok);
    }
    NoSendBlocks(Interleave(s0, schedule), targets, before, d);
  }

  predicate AllFinished(s: Replacement) {
    forall d :: d in s.workers ==> s.workers[d].Finished?
  }

  function Failed(s: Replacement): set<string> {
    set d | d in s.workers && s.workers[d].Finished? && s.workers[d].result.Some?
  }

  /** When all workers have finished there is one error for each failed replacement, and those are
      the devices without the new ROSpec, save that one which refuses the deletion may happen to
      hold that ROSpec already. */
  lemma ErrorsCountFailures(s: Replacement, targets: map<string, ROSpec>, before: Fleet)
    requires Consistent(s, targets, before) && AllFinished(s)
    ensures |s.errs| == |Failed(s)|
    ensures forall d :: d in targets ==>
              (d in Failed(s) <==>
               || SpecsOn(s.fleet, d) != [targets[d]]
               || (s.workers[d].result == Some(DeleteFailed) && SpecsOn(before, d) == [targets[d]]))
  {
    DistinctNames(s.errs);
    assert Names(s.errs) == Failed(s);
  }

  /** What the devices hold once all replacements have finished, in whatever interleaving. */
  function Replaced(fleet: Fleet, targets: map<string, ROSpec>, failures: map<string, Failure>): Fleet {
    map d | d in fleet.Keys + targets.Keys ::
      if d !in targets then SpecsOn(fleet, d)
      else if d !in failures then [targets[d]]
      else if failures[d].AddFailed? then []
      else SpecsOn(fleet, d)
  }

  /** That is what the concurrent replacement comes to. */
  lemma ReplacementOutcome(s: Replacement, targets: map<string, ROSpec>, before: Fleet, d: string)
    requires Consistent(s, targets, before) && AllFinished(s)
    ensures var failures := map n | n in Failed(s) :: s.workers[n].result.value;
            SpecsOn(s.fleet, d) == SpecsOn(Replaced(before, targets, failures), d)
  {
    if d in targets {
      assert s.workers[d].Finished?;
      assert DeviceMatches(s.workers[d], SpecsOn(s.fleet, d), SpecsOn(before, d), targets[d]);
    }
  }

  // ---- The group itself ----

  /** The device service, as far as the group drives it. */
  class DSClient {
    var fleet: Fleet

    constructor ()
      ensures fleet == map[]
    {
      fleet := map[];
    }

    /** A command that fails changes nothing. */
    method DeleteAllROSpecs(device: string) returns (ok: bool)
      modifies this
      ensures fleet == if ok then old(fleet)[device := []] else old(fleet)
    {
      ok := *;
      if ok {
        fleet := fleet[device := []];
      }
    }

    method AddROSpec(device: string, spec: ROSpec) returns (ok: bool)
      modifies this
      ensures fleet == if ok then old(fleet)[device := SpecsOn(old(fleet), device) + [spec]] else old(fleet)
    {
      ok := *;
      if ok {
        fleet := fleet[device := SpecsOn(fleet, device) + [spec]];
      }
    }
  }

  /** Deletes whatever the device has, then adds the new ROSpec; the second only if the first succeeds. */
  method ReplaceRO(ds: DSClient, name: string, spec: ROSpec) returns (ok: bool)
    modifies ds
    ensures forall d :: d != name ==> SpecsOn(ds.fleet, d) == SpecsOn(old(ds.fleet), d)
    ensures if ok then SpecsOn(ds.fleet, name) == [spec]
            else SpecsOn(ds.fleet, name) == [] || ds.fleet == old(ds.fleet)
  {
    ok := ds.DeleteAllROSpecs(name);
    if ok {
      ok := ds.AddROSpec(name, spec);
    }
  }

  datatype SetResult = Rejected(reader: string) | Applied(failed: seq<string>)

  predicate Accepts(r: TagReader, b: Behavior, e: Environment) {
    r.newROSpec(b, e).Ok?
  }

  /** The ROSpec the group sends for a behaviour that the reader accepts. */
  function SpecFor(r: TagReader, b: Behavior, e: Environment): ROSpec
    requires Accepts(r, b, e)
  {
    r.newROSpec(b, e).value.(roSpecID := DEFAULT_ROSPEC_ID)
  }

  /** It is the reader's own, numbered 1. */
  lemma SpecForIsNumbered(r: TagReader, b: Behavior, e: Environment)
    requires Accepts(r, b, e)
    ensures SpecFor(r, b, e).roSpecID == 1
    ensures r.newROSpec(b, e) == Ok(SpecFor(r, b, e).(roSpecID := r.newROSpec(b, e).value.roSpecID))
  {
  }

  class ReaderGroup {
    var readers: map<string, TagReader>
    var env: Environment
    var behavior: Behavior

    /** Every member of the group accepts the group's behaviour. */
    predicate Agrees()
      reads this
    {
      forall n :: n in readers ==> Accepts(readers[n], behavior, env)
    }

    constructor ()
      ensures readers == map[] && Agrees() && env.numNearbyReaders == 0
      ensures behavior.powerMax == 3000 && behavior.gpiPort == None && behavior.frequencies ==
              [] && behavior.duration == 0
    {
      readers := map[];
      env := Environment(0);
      behavior := Behavior(None, 3000, [], 0);
    }

    method RemoveReader(name: string)
      modifies this
      ensures readers == old(readers) - {name} && behavior == old(behavior) && env == old(env)
      ensures old(Agrees()) ==> Agrees()
    {
      readers := readers - {name};
    }

    /** `created` is what the device service answers to the request for a reader. */
    method AddReader<E>(ds: DSClient, name: string, created: Result<TagReader, E>) returns (ok: bool)
      modifies this, ds
      ensures behavior == old(behavior) && env == old(env)
      ensures ok ==> created.Ok? && Accepts(created.value, behavior, env)
                     && readers == old(readers)[name := created.value]
                     && SpecsOn(ds.fleet, name) == [SpecFor(created.value, behavior, env)]
      ensures !ok ==> readers == old(readers) && (SpecsOn(ds.fleet, name) == [] || ds.fleet == old(ds.fleet))
      ensures forall d :: d != name ==> SpecsOn(ds.fleet, d) == SpecsOn(old(ds.fleet), d)
      ensures old(Agrees()) ==> Agrees()
    {
      if created.Err? {
        return false;
      }
      var spec := created.value.newROSpec(behavior, env);
      if spec.Err? {
        return false;
      }
      ok := ReplaceRO(ds, name, spec.value.(roSpecID := DEFAULT_ROSPEC_ID));
      if ok {
        readers := readers[name := created.value];
      }
    }

    /** New ROSpecs for all readers, or the name of one that refuses. */
    method Validate(b: Behavior) returns (r: Result<map<string, ROSpec>, string>)
      ensures r.Err? ==> r.error in readers && !Accepts(readers[r.error], b, env)
      ensures r.Ok? ==> r.value.Keys == readers.Keys
                        && forall n :: n in readers ==>
                             Accepts(readers[n], b, env) && r.value[n] == SpecFor(readers[n], b, env)
    {
      var specs: map<string, ROSpec> := map[];
      var remaining := readers.Keys;
      while remaining != {}
        invariant remaining <= readers.Keys
        invariant specs.Keys == readers.Keys - remaining
        invariant forall n :: n in specs ==> Accepts(readers[n], b, env) && specs[n] == SpecFor(readers[n], b, env)
      {
        var name :| name in remaining;
        remaining := remaining - {name};
        var s := readers[name].newROSpec(b, env);
        if s.Err? {
          return Err(name);
        }
        specs := specs[name := s.value.(roSpecID := DEFAULT_ROSPEC_ID)];
      }
      return Ok(specs);
    }

    /** All-or-nothing on validity. Once accepted, the behaviour stands whatever the devices answer;
        every device then has its new ROSpec, or is reported as failed and has none or what it had. */
    method SetBehavior(ds: DSClient, b: Behavior) returns (result: SetResult)
      modifies this, ds
      ensures readers == old(readers) && env == old(env)
      ensures result.Rejected? <==> exists n :: n in readers && !Accepts(readers[n], b, env)
      ensures result.Rejected? ==>
                && result.reader in readers && !Accepts(readers[result.reader], b, env)
                && behavior == old(behavior) && ds.fleet == old(ds.fleet)
      ensures result.Applied? ==>
                && behavior == b && Agrees()
                && (forall n :: n in result.failed ==> n in readers)
                && (forall i, j :: 0 <= i < j < |result.failed| ==> result.failed[i] != result.failed[j])
                && (forall n :: n in readers ==>
                      if n in result.failed
                      then SpecsOn(ds.fleet, n) == [] || SpecsOn(ds.fleet, n) == SpecsOn(old(ds.fleet), n)
                      else SpecsOn(ds.fleet, n) == [SpecFor(readers[n], b, env)])
                && (forall d :: d !in readers ==> SpecsOn(ds.fleet, d) == SpecsOn(old(ds.fleet), d))
      ensures old(Agrees()) ==> Agrees()
    {
      var specs := Validate(b);
      if specs.Err? {
        return Rejected(specs.error);
      }
      behavior := b;
      var failed, _ := ReplaceAll(ds, specs.value);
      return Applied(failed);
    }
  }

  function InStage(s: Replacement, stage: Worker -> bool): set<string> {
    set d | d in s.workers && stage(s.workers[d])
  }

  /** One worker per device, run in an arbitrary interleaving until all have finished. */
  method ReplaceAll(ds: DSClient, specs: map<string, ROSpec>) returns (errs: seq<string>, ghost end: Replacement)
    modifies ds
    ensures Consistent(end, specs, old(ds.fleet)) && AllFinished(end)
    ensures end.fleet == ds.fleet && end.errs == errs
  {
    var s := Begin(specs, ds.fleet);
    BeginConsistent(specs, ds.fleet);
    var running := specs.Keys;
    while running != {}
      invariant Consistent(s, specs, old(ds.fleet)) && s.fleet == ds.fleet
      invariant running == set d | d in s.workers && !s.workers[d].Finished?
      decreases InStage(s, (w: Worker) => w.Deleting?),
                InStage(s, (w: Worker) => w.Adding?),
                InStage(s, (w: Worker) => w.Sending?)
    {
      var name :| name in running;
      var ok: bool := *;
      StepConsistent(s, specs, old(ds.fleet), name, ok);
      NoSendBlocks(s, specs, old(ds.fleet), name);
      StepProgress(s, name, ok);
      s := StepWorker(s, name, ok);
      ds.fleet := s.fleet;
      running := set d | d in s.workers && !s.workers[d].Finished?;
    }
    assert forall d :: d in s.workers ==> d !in running;
    return s.errs, s;
  }

  /** Every step of a worker that is neither finished nor blocked takes it to a later stage. */
  lemma StepProgress(s: Replacement, name: string, ok: bool)
    requires Active(s, name) && !Blocked(s, name)
    ensures var s' := StepWorker(s, name, ok);
            var d, d' := InStage(s, (w: Worker) => w.Deleting?), InStage(s', (w: Worker) => w.Deleting?);
            var a, a' := InStage(s, (w: Worker) => w.Adding?), InStage(s', (w: Worker) => w.Adding?);
            var r, r' := InStage(s, (w: Worker) => w.Sending?), InStage(s', (w: Worker) => w.Sending?);
            d' < d || (d' == d && (a' < a || (a' == a && r' < r)))
  {
    var s' := StepWorker(s, name, ok);
    match s.workers[name] {
      case Deleting =>
        assert name in InStage(s, (w: Worker) => w.Deleting?);
        assert name !in InStage(s', (w: Worker) => w.Deleting?);
      case Adding =>
        assert name in InStage(s, (w: Worker) => w.Adding?);
        assert name !in InStage(s', (w: Worker) => w.Adding?);
      case Sending(_) =>
        assert name in InStage(s, (w: Worker) => w.Sending?);
        assert name !in InStage(s', (w: Worker) => w.Sending?);
      case Finished(_) =>
    }
  }
}
