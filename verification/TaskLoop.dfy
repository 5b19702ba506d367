/** The task loop as a transition system: the live inventory, the snapshot cached beside it, the file
    on disk, the event channel and the consumer that publishes what is on it. Each iteration is cut
    where a crash can fall: after processing, after persisting, after sending; the consumer's steps
    may come in between anywhere. */
module TaskLoops {
  import opened Basics
  import opened TagReports
  import opened Inventory
  import opened Actions
  import opened EventLog
  import opened Sweeps
  import opened Snapshots

  const EVENT_CH_SZ: nat := 100

  /** Where the loop is: waiting for input, about to persist, or about to send; and once its context
      is cancelled, with the channel closed, waiting for the consumer to finish, or gone. */
  datatype Stage =
    | Waiting
    | Persisting(events: seq<Event>)
    | Sending(events: seq<Event>)
    | Stopping
    | Draining
    | Stopped

  /** What became of a batch of events: it was published, its publication failed, or the process died first. */
  datatype Fate = Published | Dropped | Lost

  datatype Batch = Batch(events: seq<Event>, fate: Fate)

  datatype Loop = Loop(
    live: InventoryState,
    cached: seq<StaticTag>,
    file: seq<StaticTag>,
    stage: Stage,
    settled: seq<Batch>,
    taken: Option<seq<Event>>,
    channel: seq<seq<Event>>)

  datatype Input =
    | ReportArrives(report: seq<TagReportData>, deviceName: string, originNanos: int)
    | DepartedTick(nowNanos: int, order: seq<string>)
    | AgeOutTick(nowNanos: int, order: seq<string>)
    | ConfigArrives(cfg: CustomConfig)
    | SnapshotRequested
    | Persist
    | Send
    | Take
    | Deliver(ok: bool)
    | Shutdown
    | Finish
    | Restart(cfg: CustomConfig)

  function ActionOf(input: Input): Option<Action> {
    match input
    case ReportArrives(report, device, origin) => Some(Report(report, device, origin))
    case DepartedTick(now, order) => Some(AggregateDeparted(now, order))
    case AgeOutTick(now, order) => Some(AgeOut(now, order))
    case ConfigArrives(cfg) => if cfg.appSettings.Validate() then Some(UpdateConfig(cfg)) else None
    case _ => None
  }

  function Process(l: Loop, a: Action): Outcome {
    Run(l.live, OpsOf(l.live.config, a))
  }

  /** The persisted batches whose fate is open, oldest first: the one that the consumer is publishing,
      those on the channel, and the one about to be sent. */
  function Pending(l: Loop): seq<seq<Event>> {
    (if l.taken.Some? then [l.taken.value] else [])
    + l.channel
    + (if l.stage.Sending? then [l.stage.events] else [])
  }

  function Lose(pending: seq<seq<Event>>): seq<Batch> {
    seq(|pending|, i requires 0 <= i < |pending| => Batch(pending[i], Lost))
  }

  function EventsOf(settled: seq<Batch>): seq<seq<Event>> {
    seq(|settled|, i requires 0 <= i < |settled| => settled[i].events)
  }

  /** All batches that were ever persisted, whatever became of them. */
  function History(l: Loop): seq<seq<Event>> {
    EventsOf(l.settled) + Pending(l)
  }

  function Flatten(batches: seq<seq<Event>>): seq<Event> {
    if batches == [] then [] else Flatten(batches[..|batches| - 1]) + batches[|batches| - 1]
  }

  /** All events that were ever persisted. */
  function Persisted(l: Loop): seq<Event> {
    Flatten(History(l))
  }

  /** What a step adds to the history: the batch that it persists. */
  function NewlyPersisted(l: Loop, input: Input): seq<seq<Event>> {
    if input.Persist? && l.stage.Persisting? && l.stage.events != [] then [l.stage.events] else []
  }

  /** One step; the order in which a snapshot lists the tags is left open. */
  ghost predicate Step(l: Loop, input: Input, l': Loop) {
    match input
    case ReportArrives(_, _, _) =>
      && l.stage.Waiting?
      && var out := Process(l, ActionOf(input).value);
      && IsSnapshot(l'.cached, out.state)
      && l' == l.(live := out.state, cached := l'.cached,
                  stage := if out.events == [] then Waiting else Persisting(out.events))
    case DepartedTick(_, order) =>
      && l.stage.Waiting? && Enumerates(order, l.live.tags.Keys)
      && var out := Process(l, ActionOf(input).value);
      if out.events == [] then l' == l.(live := out.state)
      else IsSnapshot(l'.cached, out.state)
           && l' == l.(live := out.state, cached := l'.cached, stage := Persisting(out.events))
    case AgeOutTick(_, order) =>
      && l.stage.Waiting? && Enumerates(order, l.live.tags.Keys)
      && var out := Process(l, ActionOf(input).value);
      if |out.state.tags| == |l.live.tags| then l' == l.(live := out.state)
      else IsSnapshot(l'.cached, out.state)
           && l' == l.(live := out.state, cached := l'.cached, stage := Persisting([]))
    case ConfigArrives(_) =>
      && l.stage.Waiting?
      && l' == if ActionOf(input).None? then l else l.(live := Process(l, ActionOf(input).value).state)
    case SnapshotRequested =>
      l.stage.Waiting? && l' == l
    case Persist =>
      && (l.stage.Persisting? || l.stage.Stopping?)
      && l' == l.(file := l.cached, stage := if l.stage.Stopping? then Draining
                                             else if l.stage.events == [] then Waiting
                                             else Sending(l.stage.events))
    case Send =>
      && l.stage.Sending? && |l.channel| < EVENT_CH_SZ
      && l' == l.(stage := Waiting, channel := l.channel + [l.stage.events])
    case Take =>
      && l.taken.None? && l.channel != []
      && l' == l.(taken := Some(l.channel[0]), channel := l.channel[1..])
    case Deliver(ok) =>
      && l.taken.Some?
      && l' == l.(taken := None, settled := l.settled + [Batch(l.taken.value, if ok then Published else Dropped)])
    case Shutdown =>
      l.stage.Waiting? && l' == l.(stage := Stopping)
    case Finish =>
      l.stage.Draining? && Pending(l) == [] && l' == l.(stage := Stopped)
    case Restart(cfg) =>
      l' == Loop(Restore(l.file, cfg), l.file, l.file, Waiting, l.settled + Lose(Pending(l)), None, [])
  }

  /** The first start, without a file. */
  function Start(cfg: CustomConfig): Loop {
    Loop(Restore([], cfg), [], [], Waiting, [], None, [])
  }

  /** A run of the loop, over any number of crashes and restarts. */
  ghost predicate IsRun(ls: seq<Loop>, inputs: seq<Input>, cfg: CustomConfig) {
    && |ls| == |inputs| + 1
    && ls[0] == Start(cfg)
    && forall i :: 0 <= i < |inputs| ==> Step(ls[i], inputs[i], ls[i + 1])
  }

  /** How each kind of input is handled, one at a time. */
  lemma ReportStep(l: Loop, report: seq<TagReportData>, device: string, origin: int, l': Loop)
    requires l.stage.Waiting?
    requires var out := Process(l, Report(report, device, origin));
             && IsSnapshot(l'.cached, out.state)
             && l' == l.(live := out.state, cached := l'.cached,
                         stage := if out.events == [] then Waiting else Persisting(out.events))
    ensures Step(l, ReportArrives(report, device, origin), l')
  {
  }

  lemma DepartedStep(l: Loop, now: int, order: seq<string>, l': Loop)
    requires l.stage.Waiting? && Enumerates(order, l.live.tags.Keys)
    requires var out := Process(l, AggregateDeparted(now, order));
             if out.events == [] then l' == l.(live := out.state)
             else IsSnapshot(l'.cached, out.state)
                  && l' == l.(live := out.state, cached := l'.cached, stage := Persisting(out.events))
    ensures Step(l, DepartedTick(now, order), l')
  {
  }

  lemma AgeOutStep(l: Loop, now: int, order: seq<string>, l': Loop)
    requires l.stage.Waiting? && Enumerates(order, l.live.tags.Keys)
    requires var out := Process(l, AgeOut(now, order));
             if |out.state.tags| == |l.live.tags| then l' == l.(live := out.state)
             else IsSnapshot(l'.cached, out.state)
                  && l' == l.(live := out.state, cached := l'.cached, stage := Persisting([]))
    ensures Step(l, AgeOutTick(now, order), l')
  {
  }

  lemma SweepsAreRuns(l: Loop, now: int, order: seq<string>)
    ensures Process(l, AggregateDeparted(now, order)) == Run(l.live, DepartOps(order, now))
    ensures Process(l, AgeOut(now, order)) == Run(l.live, AgeOps(order, now))
  {
  }

  lemma RestartStep(l: Loop, cfg: CustomConfig, l': Loop)
    requires l' == Loop(Restore(l.file, cfg), l.file, l.file, Waiting, l.settled + Lose(Pending(l)), None, [])
    ensures Step(l, Restart(cfg), l')
  {
  }

  lemma RunExtends(ls: seq<Loop>, inputs: seq<Input>, cfg: CustomConfig, input: Input, l: Loop)
    requires IsRun(ls, inputs, cfg) && Step(ls[|ls| - 1], input, l)
    ensures IsRun(ls + [l], inputs + [input], cfg)
  {
    hide Step;
    var ls', inputs' := ls + [l], inputs + [input];
    forall i | 0 <= i < |inputs'|
      ensures Step(ls'[i], inputs'[i], ls'[i + 1])
    {
      if i < |inputs| {
        assert ls'[i] == ls[i] && ls'[i + 1] == ls[i + 1] && inputs'[i] == inputs[i];
      }
    }
  }

  // ---- What every step keeps ----

  /** The same tags, in the same states. */
  ghost predicate SameStates(m: map<string, TagRecord>, m': map<string, TagRecord>) {
    m.Keys == m'.Keys && forall e :: e in m ==> m[e].state == m'[e].state
  }

  /** A read, or the visit of a departure sweep, that raises no event changes no tag's state. */
  lemma {:induction false} SilenceKeepsStates(s: InventoryState, ops: seq<Op>)
    requires forall i :: 0 <= i < |ops| ==> ops[i].ReadOp? || ops[i].ConfigOp?
    requires Run(s, ops).events == []
    ensures SameStates(s.tags, Run(s, ops).state.tags)
  {
    hide Apply, SameStates;
    if ops == [] {
      assert SameStates(s.tags, s.tags) by { SameStatesTrivially(s.tags); }
    } else {
      var init, op := ops[..|ops| - 1], ops[|ops| - 1];
      SilenceKeepsStates(s, init);
      SilentStep(Run(s, init).state, op);
      SameStatesChain(s.tags, Run(s, init).state.tags, Run(s, ops).state.tags);
    }
  }

  lemma SameStatesTrivially(m: map<string, TagRecord>)
    ensures SameStates(m, m)
  {
  }

  lemma SameStatesChain(a: map<string, TagRecord>, b: map<string, TagRecord>, c: map<string, TagRecord>)
    requires SameStates(a, b) && SameStates(b, c)
    ensures SameStates(a, c)
  {
  }

  lemma SilentStep(s: InventoryState, op: Op)
    requires (op.ReadOp? || op.ConfigOp?) && Apply(s, op).events == []
    ensures SameStates(s.tags, Apply(s, op).state.tags)
  {
    hide ApplyRead, TagReportData.EPC, ProcessorConfig.Alias;
    if op.ReadOp? {
      ReadKeepsIdentity(TagBefore(s, op.rt.EPC()), op.rt, op.info, s.config);
      assert op.rt.EPC() in s.tags;
    }
  }

  lemma {:induction false} NoDepartures(s: InventoryState, order: seq<string>, nowNanos: int)
    requires Run(s, DepartOps(order, nowNanos)).events == []
    ensures Run(s, DepartOps(order, nowNanos)).state == s
  {
    if order != [] {
      var init, e := order[..|order| - 1], order[|order| - 1];
      assert order == init + [e];
      SweepSnoc(init, e, nowNanos);
      RunSnoc(s, DepartOps(init, nowNanos), DepartOp(e, nowNanos));
      hide DepartOps, Run, Overdue, DepartureOf;
      NoDepartures(s, init, nowNanos);
    }
  }

  lemma NoneAgedOut(s: InventoryState, order: seq<string>, nowNanos: int)
    requires Enumerates(order, s.tags.Keys)
    requires var out := Run(s, AgeOps(order, nowNanos)); |out.state.tags| == |s.tags|
    ensures Run(s, AgeOps(order, nowNanos)).state == s
  {
    AgeSweepRun(s, order, nowNanos);
    hide Run, Expired, AgeOps;
    var after := Remaining(s, order, nowNanos);
    assert after.tags.Keys <= s.tags.Keys;
    SubsetOfEqualSize(after.tags.Keys, s.tags.Keys);
    assert after.tags == s.tags;
  }

  lemma AgeOutSilent(s: InventoryState, order: seq<string>, nowNanos: int)
    ensures Run(s, AgeOps(order, nowNanos)).events == []
  {
    AgeSweepRun(s, order, nowNanos);
  }

  lemma SubsetOfEqualSize<T>(a: set<T>, b: set<T>)
    requires a <= b && |a| == |b|
    ensures a == b
  {
    assert b == a + (b - a);
    assert |b| == |a| + |b - a|;
  }

  ghost function OnFile(file: seq<StaticTag>): InventoryState {
    var settings := ApplicationSettings(0.0, 0.0, 0.0, 0, 0, 0, false);
    InventoryState(RestoreTags(file), NewProcessorConfig(CustomConfig(settings, map[])))
  }

  /** The cached snapshot mirrors the live inventory; the file has the live inventory's states unless
      a change is waiting to be persisted, and then the waiting events make up the difference; and the
      persisted events follow the file. */
  ghost predicate Invariant(l: Loop) {
    && KeyedByEPC(l.live)
    && Mirrors(l.cached, l.live)
    && DistinctTags(l.file)
    && (!l.stage.Persisting? ==> SameStates(RestoreTags(l.file), l.live.tags))
    && (l.stage.Persisting? ==>
          forall e :: Follow(PhaseOf(OnFile(l.file), e), l.stage.events, e) == PhaseOf(l.live, e))
    && (forall e :: Follow(Away, Persisted(l), e) == PhaseOf(OnFile(l.file), e))
    && (l.stage.Stopped? ==> Pending(l) == [])
  }

  lemma MirrorStates(snap: seq<StaticTag>, s: InventoryState)
    requires Mirrors(snap, s)
    ensures DistinctTags(snap) && SameStates(RestoreTags(snap), s.tags)
  {
    RestoredTags(snap);
    assert forall e :: e in s.tags <==> Lists(snap, e);
    forall e | e in s.tags
      ensures RestoreTags(snap)[e].state == s.tags[e].state
    {
      var i :| 0 <= i < |snap| && snap[i].epc == e;
      assert snap[i].(locationAlias := "").state == snap[i].state;
    }
  }

  lemma SamePhases(m: map<string, TagRecord>, s: InventoryState, s': InventoryState, e: string)
    requires s.tags == m && SameStates(m, s'.tags)
    ensures PhaseOf(s, e) == PhaseOf(s', e)
  {
  }

  /** Sending, taking, delivering and crashing move batches along, but none ever leaves the history
      or overtakes another. */
  lemma HistoryGrows(l: Loop, input: Input, l': Loop)
    requires Step(l, input, l')
    ensures History(l') == History(l) + NewlyPersisted(l, input)
    ensures Persisted(l') == if NewlyPersisted(l, input) == [] then Persisted(l) else Persisted(l) + l.stage.events
  {
    hide IsSnapshot, Process, Enumerates, Restore, Flatten;
    HistoryMoves(l, input, l');
    if NewlyPersisted(l, input) == [] {
      assert History(l') == History(l);
    } else {
      FlattenSnoc(History(l), l.stage.events);
    }
  }

  /** Persisting adds the waiting events to those persisted. */
  lemma PersistAdds(l: Loop, l': Loop)
    requires Step(l, Persist, l')
    ensures Persisted(l') == Persisted(l) + if l.stage.Persisting? then l.stage.events else []
  {
    HistoryGrows(l, Persist, l');
    hide Step, History, Persisted;
    assert Persisted(l) + [] == Persisted(l);
  }

  lemma HistoryMoves(l: Loop, input: Input, l': Loop)
    requires Step(l, input, l')
    ensures History(l') == History(l) + NewlyPersisted(l, input)
  {
    hide IsSnapshot, Process, Enumerates, Restore;
    if input.Take? || input.Deliver? || input.Restart? {
      hide Step;
      ConsumerMoves(l, input, l');
    }
  }

  lemma ConsumerMoves(l: Loop, input: Input, l': Loop)
    requires Step(l, input, l') && (input.Take? || input.Deliver? || input.Restart?)
    ensures History(l') == History(l)
  {
    hide IsSnapshot, Process, Enumerates, Restore;
    match input {
      case Take => assert l.channel == [l.channel[0]] + l.channel[1..];
      case Deliver(_) =>
      case Restart(_) =>
    }
  }

  lemma FlattenSnoc(batches: seq<seq<Event>>, events: seq<Event>)
    ensures Flatten(batches + [events]) == Flatten(batches) + events
  {
    assert (batches + [events])[..|batches|] == batches;
  }

  lemma ConfigKeepsMirror(snap: seq<StaticTag>, s: InventoryState, config: ProcessorConfig)
    requires Mirrors(snap, s)
    ensures Mirrors(snap, s.(config := config))
  {
    hide StaticStats;
  }

  /** After processing: the waiting events are the difference between the file and the live inventory. */
  lemma ProcessKeeps(l: Loop, a: Action, out: Outcome)
    requires Invariant(l) && l.stage.Waiting? && out == Process(l, a)
    ensures KeyedByEPC(out.state)
    ensures forall e :: Follow(PhaseOf(OnFile(l.file), e), out.events, e) == PhaseOf(out.state, e)
  {
    hide Apply, Run, SameStates, PhaseOf, KeyedByEPC, RestoreTags, OpsOf, Mirrors;
    EventsFollowPresence(l.live, OpsOf(l.live.config, a), "");
    forall e
      ensures Follow(PhaseOf(OnFile(l.file), e), out.events, e) == PhaseOf(out.state, e)
    {
      EventsFollowPresence(l.live, OpsOf(l.live.config, a), e);
      SamePhases(RestoreTags(l.file), OnFile(l.file), l.live, e);
    }
  }

  lemma ReportKeeps(l: Loop, input: Input, l': Loop)
    requires Invariant(l) && Step(l, input, l') && input.ReportArrives?
    ensures Invariant(l')
  {
    hide Apply, Run, SameStates, PhaseOf, KeyedByEPC, RestoreTags, Mirrors, IsSnapshot, OnFile;
    var a := ActionOf(input).value;
    var out := Process(l, a);
    ProcessKeeps(l, a, out);
    SnapshotMirrors(l'.cached, out.state);
    if out.events == [] {
      SilenceKeepsStates(l.live, OpsOf(l.live.config, a));
      SameStatesChain(RestoreTags(l.file), l.live.tags, out.state.tags);
    }
  }

  lemma DepartedTickKeeps(l: Loop, input: Input, l': Loop)
    requires Invariant(l) && Step(l, input, l') && input.DepartedTick?
    ensures Invariant(l')
  {
    hide Apply, Run, SameStates, PhaseOf, KeyedByEPC, RestoreTags, Mirrors, IsSnapshot, OnFile, DepartOps, Enumerates;
    var a := ActionOf(input).value;
    var out := Process(l, a);
    ProcessKeeps(l, a, out);
    if out.events == [] {
      NoDepartures(l.live, input.order, input.nowNanos);
    } else {
      SnapshotMirrors(l'.cached, out.state);
    }
  }

  lemma AgeOutTickKeeps(l: Loop, input: Input, l': Loop)
    requires Invariant(l) && Step(l, input, l') && input.AgeOutTick?
    ensures Invariant(l')
  {
    hide Apply, Run, SameStates, PhaseOf, KeyedByEPC, RestoreTags, Mirrors, IsSnapshot, OnFile, AgeOps, Enumerates;
    var a := ActionOf(input).value;
    var out := Process(l, a);
    ProcessKeeps(l, a, out);
    AgeOutSilent(l.live, input.order, input.nowNanos);
    if |out.state.tags| == |l.live.tags| {
      NoneAgedOut(l.live, input.order, input.nowNanos);
    } else {
      SnapshotMirrors(l'.cached, out.state);
    }
  }

  lemma PersistKeeps(l: Loop, l': Loop)
    requires Invariant(l) && Step(l, Persist, l')
    ensures Invariant(l')
  {
    hide SameStates, PhaseOf, KeyedByEPC, RestoreTags, Mirrors, Process, IsSnapshot, DistinctTags, Persisted;
    MirrorStates(l.cached, l.live);
    HistoryGrows(l, Persist, l');
    forall e
      ensures Follow(Away, Persisted(l'), e) == PhaseOf(OnFile(l'.file), e)
    {
      SamePhases(RestoreTags(l.cached), OnFile(l.cached), l.live, e);
      if l.stage.Persisting? {
        FollowConcat(Away, Persisted(l), l.stage.events, e);
        assert l.stage.events == [] ==> Persisted(l) + l.stage.events == Persisted(l);
      } else {
        SamePhases(RestoreTags(l.file), OnFile(l.file), l.live, e);
      }
    }
  }

  /** The consumer, and the loop on its way out, touch neither the inventory nor the file. */
  lemma PassingOnKeeps(l: Loop, input: Input, l': Loop)
    requires Invariant(l) && Step(l, input, l')
    requires input.Send? || input.Take? || input.Deliver? || input.Shutdown? || input.Finish?
    ensures Invariant(l')
  {
    hide SameStates, PhaseOf, KeyedByEPC, RestoreTags, Mirrors, OnFile, Process, IsSnapshot, Follow, Persisted,
      DistinctTags;
    HistoryGrows(l, input, l');
  }

  lemma RestartKeeps(l: Loop, cfg: CustomConfig, l': Loop)
    requires Invariant(l) && Step(l, Restart(cfg), l')
    ensures Invariant(l')
  {
    hide SameStates, PhaseOf, KeyedByEPC, RestoreTags, Mirrors, OnFile, Process, IsSnapshot, Follow, Persisted;
    HistoryGrows(l, Restart(cfg), l');
    RestoredMirrors(l.file, cfg);
    SameStatesTrivially(RestoreTags(l.file));
  }

  /** Every step keeps the invariant, including a crash at any stage and the restart after it. */
  lemma StepKeepsInvariant(l: Loop, input: Input, l': Loop)
    requires Invariant(l) && Step(l, input, l')
    ensures Invariant(l')
  {
    match input {
      case ReportArrives(_, _, _) => ReportKeeps(l, input, l');
      case DepartedTick(_, _) => DepartedTickKeeps(l, input, l');
      case AgeOutTick(_, _) => AgeOutTickKeeps(l, input, l');
      case ConfigArrives(cfg) =>
        RunOfConfig(l.live, cfg);
        ConfigKeepsMirror(l.cached, l.live, NewProcessorConfig(cfg));
        hide Apply, Run, Mirrors, Follow;
      case SnapshotRequested =>
      case Persist => PersistKeeps(l, l');
      case Restart(cfg) => RestartKeeps(l, cfg, l');
      case _ => PassingOnKeeps(l, input, l');
    }
  }

  lemma {:induction false} InvariantOverRuns(ls: seq<Loop>, inputs: seq<Input>, cfg: CustomConfig, i: nat)
    requires IsRun(ls, inputs, cfg) && i < |ls|
    ensures Invariant(ls[i])
  {
    hide Step, Invariant;
    if i == 0 {
      StartIsGood(cfg);
    } else {
      InvariantOverRuns(ls, inputs, cfg, i - 1);
      StepKeepsInvariant(ls[i - 1], inputs[i - 1], ls[i]);
    }
  }

  lemma StartIsGood(cfg: CustomConfig)
    ensures Invariant(Start(cfg))
  {
  }

  /** Safety over every run of the loop, with crashes at any stage: the cached snapshot mirrors the
      live inventory; unless a change is about to be persisted, the file holds the live inventory's tags
      and states; and the persisted events of each tag, over all restarts, are a prefix of
      (Arrived Moved* Departed)* that ends in a visit exactly when the tag is present. So a restart
      never announces the arrival of a tag that is still present. */
  lemma LoopSafety(ls: seq<Loop>, inputs: seq<Input>, cfg: CustomConfig, i: nat, e: string)
    requires IsRun(ls, inputs, cfg) && i < |ls|
    ensures var l := ls[i];
            var mine := Of(Persisted(l), e);
            && Mirrors(l.cached, l.live)
            && Visits(mine)
            && (!l.stage.Persisting? ==>
                  && SameStates(RestoreTags(l.file), l.live.tags)
                  && (PhaseOf(l.live, e) == Here <==> mine != [] && !mine[|mine| - 1].DepartedEvent?))
  {
    hide Step, Mirrors, SameStates;
    InvariantOverRuns(ls, inputs, cfg, i);
    var l := ls[i];
    assert Follow(Away, Persisted(l), e) == PhaseOf(OnFile(l.file), e);
    FollowDecidesLanguage(Persisted(l), e);
    LastEventDecidesPhase(Away, Persisted(l), e);
    if !l.stage.Persisting? {
      SamePhases(RestoreTags(l.file), OnFile(l.file), l.live, e);
    }
  }

  lemma ConfigKeepsSnapshot(snap: seq<StaticTag>, s: InventoryState, config: ProcessorConfig)
    requires IsSnapshot(snap, s) && config.aliases == s.config.aliases
    ensures IsSnapshot(snap, s.(config := config))
  {
    hide StaticStats;
    assert forall t: TagRecord :: Static(t, s.config) == Static(t, config);
  }

  lemma RunOfConfig(s: InventoryState, cfg: CustomConfig)
    ensures Run(s, [ConfigOp(cfg)]) == Outcome(s.(config := NewProcessorConfig(cfg)), [])
  {
    assert [ConfigOp(cfg)][..0] == [];
  }

  lemma SnapshotStaysExact(l: Loop, input: Input, l': Loop)
    requires Step(l, input, l') && IsSnapshot(l.cached, l.live)
    requires !input.Restart? && l'.live.config.aliases == l.live.config.aliases
    ensures IsSnapshot(l'.cached, l'.live)
  {
    hide Run, IsSnapshot, Enumerates, Apply, DepartOps, AgeOps;
    match input {
      case DepartedTick(now, order) =>
        if Process(l, ActionOf(input).value).events == [] {
          NoDepartures(l.live, order, now);
        }
      case AgeOutTick(now, order) =>
        if |Process(l, ActionOf(input).value).state.tags| == |l.live.tags| {
          NoneAgedOut(l.live, order, now);
        }
      case ConfigArrives(c) =>
        if c.appSettings.Validate() {
          RunOfConfig(l.live, c);
          ConfigKeepsSnapshot(l.cached, l.live, NewProcessorConfig(c));
        }
      case _ =>
    }
  }

  /** The cached snapshot is exact, aliases included, from any refresh until the aliases change or
      the loop restarts, although most iterations do not refresh it. */
  lemma {:induction false} AliasesStayFresh(ls: seq<Loop>, inputs: seq<Input>, cfg: CustomConfig, i: nat, j: nat)
    requires IsRun(ls, inputs, cfg) && i <= j < |ls|
    requires IsSnapshot(ls[i].cached, ls[i].live)
    requires forall k :: i <= k < j ==>
               !inputs[k].Restart? && ls[k + 1].live.config.aliases == ls[k].live.config.aliases
    ensures IsSnapshot(ls[j].cached, ls[j].live)
  {
    hide Step, IsSnapshot;
    if i < j {
      AliasesStayFresh(ls, inputs, cfg, i, j - 1);
      SnapshotStaysExact(ls[j - 1], inputs[j - 1], ls[j]);
    }
  }
}
