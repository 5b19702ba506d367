/** The task loop itself: one method for each kind of input it waits for. */
module InventoryApps {
  import opened Basics
  import opened TagReports
  import opened ReportFeeds
  import opened Inventory
  import opened Actions
  import opened EventLog
  import opened Snapshots
  import opened TagProcessors
  import opened TaskLoops
  import opened Deliveries
  import opened TagHistories
  import opened LoopMovement

  /** Moves of the consumer alone. */
  ghost predicate Consuming(moves: seq<Input>) {
    forall i :: 0 <= i < |moves| ==> moves[i].Take? || moves[i].Deliver?
  }

  /** `now` extends `was` by one input and by the steps that persist and send its outcome; before it
      can send, the loop may have to wait for the consumer. */
  ghost predicate OneIteration(was: seq<Input>, now: seq<Input>, input: Input) {
    || now == was + [input]
    || now == was + [input, Persist]
    || exists moves :: Consuming(moves) && now == was + [input, Persist] + moves + [Send]
  }

  class InventoryApp {
    var processor: TagProcessor
    /** What the readers of the default group have sent last; readers join and leave the group at
        any time. */
    var members: Members
    var snapshot: seq<StaticTag>
    /** What tags.json holds; a missing file is an empty list. */
    var file: seq<StaticTag>
    /** The event channel, and the batch that its consumer has taken from it. */
    var eventCh: seq<seq<Event>>
    var taken: Option<seq<Event>>
    /** The events published so far. */
    var published: seq<Event>
    ghost var stage: Stage
    ghost var settled: seq<Batch>
    /** The states the loop has been through, and what took it from each to the next. */
    ghost var states: seq<Loop>
    ghost var inputs: seq<Input>
    ghost const initial: CustomConfig

    ghost function View(): Loop
      reads this, processor
    {
      Loop(processor.View(), snapshot, file, stage, settled, taken, eventCh)
    }

    /** The loop's whole history is a run of the transition system. */
    ghost predicate Valid()
      reads this, processor, processor.Repr
    {
      && this !in processor.Repr && processor in processor.Repr && processor.Valid()
      && states != [] && IsRun(states, inputs, initial)
      && states[|states| - 1] == View()
      && published == PublishedEvents(settled)
    }

    constructor (cfg: CustomConfig, members: Members)
      ensures Valid() && fresh(processor.Repr) && this.members == members
      ensures stage == Waiting && snapshot == file == [] && eventCh == [] && published == []
    {
      initial := cfg;
      this.members := members;
      processor := new TagProcessor(cfg, []);
      snapshot, file, eventCh, taken, published := [], [], [], None, [];
      stage, settled := Waiting, [];
      states, inputs := [Start(cfg)], [];
    }

    ghost method Record(input: Input)
      requires states != [] && IsRun(states, inputs, initial) && Step(states[|states| - 1], input, View())
      modifies `states, `inputs
      ensures IsRun(states, inputs, initial)
      ensures states == old(states) + [View()] && inputs == old(inputs) + [input]
      ensures var l := old(states)[|old(states)| - 1]; History(View()) == History(l) + NewlyPersisted(l, input)
    {
      HistoryGrows(states[|states| - 1], input, View());
      RunExtends(states, inputs, initial, input, View());
      states, inputs := states + [View()], inputs + [input];
    }

    method PersistSnapshot()
      requires Valid() && (stage.Persisting? || stage.Stopping?)
      modifies `file, `stage, `states, `inputs
      ensures Valid()
      ensures file == snapshot
      ensures stage == if old(stage).Stopping? then Draining
                       else if old(stage).events == [] then Waiting
                       else Sending(old(stage).events)
      ensures History(View()) == old(History(View()) + NewlyPersisted(View(), Persist))
      ensures old(states) <= states && inputs == old(inputs) + [Persist]
    {
      hide IsRun, TagProcessor.Valid;
      file := snapshot;
      stage := if stage.Stopping? then Draining else if stage.events == [] then Waiting else Sending(stage.events);
      Record(Persist);
    }

    /** One move of the consumer: it takes the oldest batch, or is done with publishing the one that it
        took; a publication that fails is only logged. */
    method Consume()
      requires Valid() && (taken.Some? || eventCh != [])
      modifies `eventCh, `taken, `published, `settled, `states, `inputs
      ensures Valid() && old(states) <= states
      ensures History(View()) == old(History(View()))
      ensures exists move: Input :: (move.Take? || move.Deliver?) && inputs == old(inputs) + [move]
      ensures if old(taken).None?
              then taken == Some(old(eventCh)[0]) && eventCh == old(eventCh)[1..] && published == old(published)
              else taken == None && eventCh == old(eventCh)
                   && published in {old(published), old(published) + old(taken).value}
    {
      hide IsRun, TagProcessor.Valid, PublishedEvents;
      ghost var move: Input;
      if taken.None? {
        taken, eventCh := Some(eventCh[0]), eventCh[1..];
        move := Take;
      } else {
        var ok: bool := *;
        var events := taken.value;
        PublishedSnoc(settled, Batch(events, if ok then Published else Dropped));
        taken, settled := None, settled + [Batch(events, if ok then Published else Dropped)];
        if ok {
          published := published + events;
        }
        move := Deliver(ok);
      }
      Record(move);
    }

    /** Waits while the channel is full. */
    method AwaitRoom() returns (ghost moves: seq<Input>)
      requires Valid() && stage.Sending?
      modifies `eventCh, `taken, `published, `settled, `states, `inputs
      ensures Valid() && old(states) <= states && |eventCh| < EVENT_CH_SZ
      ensures History(View()) == old(History(View()))
      ensures |old(eventCh)| < 100 ==> eventCh == old(eventCh) && published == old(published)
      ensures Consuming(moves) && inputs == old(inputs) + moves
    {
      hide Valid, History;
      moves := [];
      while |eventCh| >= EVENT_CH_SZ
        invariant Valid() && old(states) <= states
        invariant History(View()) == old(History(View()))
        invariant Consuming(moves) && inputs == old(inputs) + moves
        invariant |old(eventCh)| < 100 ==> eventCh == old(eventCh) && published == old(published)
        decreases 2 * |eventCh| + if taken.Some? then 1 else 0
      {
        ghost var before := inputs;
        Consume();
        moves := moves + [inputs[|before|]];
      }
    }

    method SendEvents(events: seq<Event>) returns (ghost moves: seq<Input>)
      requires Valid() && stage == Sending(events)
      modifies `eventCh, `taken, `published, `stage, `settled, `states, `inputs
      ensures Valid() && stage == Waiting && old(states) <= states
      ensures History(View()) == old(History(View()))
      ensures eventCh != [] && eventCh[|eventCh| - 1] == events
      ensures |old(eventCh)| < 100 ==> eventCh == old(eventCh) + [events] && published == old(published)
      ensures Consuming(moves) && inputs == old(inputs) + moves + [Send]
    {
      moves := AwaitRoom();
      hide IsRun, TagProcessor.Valid, PublishedEvents, Consuming, History;
      eventCh := eventCh + [events];
      stage := Waiting;
      Record(Send);
    }

    /** Persisting comes first, so that no event is ever sent before its effect is on file. */
    method PersistAndSend(events: seq<Event>, ghost input: Input)
      requires Valid() && stage == Persisting(events) && events != [] && inputs != [] && inputs[|inputs| - 1] == input
      modifies `file, `eventCh, `taken, `published, `stage, `settled, `states, `inputs
      ensures Valid() && stage == Waiting && file == snapshot && old(states) <= states
      ensures History(View()) == old(History(View())) + [events]
      ensures eventCh != [] && eventCh[|eventCh| - 1] == events
      ensures OneIteration(old(inputs[..|inputs| - 1]), inputs, input)
    {
      hide Valid, History;
      ghost var before := inputs[..|inputs| - 1];
      assert NewlyPersisted(View(), Persist) == [events];
      PersistSnapshot();
      ghost var moves := SendEvents(events);
      assert inputs == before + [input, Persist] + moves + [Send];
    }

    /** A report: its reader fills in what it left out; the snapshot is always refreshed, but persisted
        only along with events, which are sent afterwards. */
    method HandleReport(report: seq<TagReportData>, deviceName: string, originNanos: int)
      requires Valid() && stage == Waiting
      modifies this, processor, processor.Repr
      ensures Valid() && stage == Waiting
      ensures processor == old(processor) && fresh(processor.Repr - old(processor.Repr)) && old(states) <= states
      ensures members == AfterReport(old(members), deviceName, report)
      ensures var filled := Filled(old(members), deviceName, report);
              var out := Process(old(View()), Report(filled, deviceName, originNanos));
              && OneIteration(old(inputs), inputs, ReportArrives(filled, deviceName, originNanos))
              && processor.View() == out.state && IsSnapshot(snapshot, out.state)
              && (if out.events == [] then file == old(file) && eventCh == old(eventCh) && published == old(published)
                  else file == snapshot && eventCh != [] && eventCh[|eventCh| - 1] == out.events)
    {
      hide IsRun, TagProcessor.Valid, PublishedEvents, History, Filled, AfterReport, Process, OneIteration, IsSnapshot;
      var filled := Filled(members, deviceName, report);
      members := AfterReport(members, deviceName, report);
      var events := ProcessFilled(filled, deviceName, originNanos);
      if |events| > 0 {
        PersistAndSend(events, ReportArrives(filled, deviceName, originNanos));
      }
    }

    method ProcessFilled(report: seq<TagReportData>, deviceName: string, originNanos: int) returns (events: seq<Event>)
      requires Valid() && stage == Waiting
      modifies processor, processor.Repr, `snapshot, `stage, `states, `inputs
      ensures Valid() && processor == old(processor) && fresh(processor.Repr - old(processor.Repr))
      ensures inputs == old(inputs) + [ReportArrives(report, deviceName, originNanos)] && old(states) <= states
      ensures OneIteration(old(inputs), inputs, ReportArrives(report, deviceName, originNanos))
      ensures var out := Process(old(View()), Report(report, deviceName, originNanos));
              && Outcome(processor.View(), events) == out && IsSnapshot(snapshot, out.state)
              && stage == if out.events == [] then Waiting else Persisting(out.events)
    {
      hide IsRun, Step, History, TagProcessor.Valid, IsSnapshot, Run, ReportOps, PublishedEvents;
      var updated;
      events, updated := processor.ProcessReport(report, NewReportInfo(deviceName, originNanos));
      snapshot := updated;
      stage := if events == [] then Waiting else Persisting(events);
      ReportStep(states[|states| - 1], report, deviceName, originNanos, View());
      Record(ReportArrives(report, deviceName, originNanos));
    }

    method HandleDepartedTick(nowNanos: int) returns (ghost order: seq<string>)
      requires Valid() && stage == Waiting
      modifies this, processor, processor.Repr
      ensures Valid() && stage == Waiting
      ensures processor == old(processor) && processor.Repr == old(processor.Repr) && old(states) <= states
      ensures members == old(members) && Enumerates(order, old(processor.View()).tags.Keys)
      ensures var out := Process(old(View()), AggregateDeparted(nowNanos, order));
              && OneIteration(old(inputs), inputs, DepartedTick(nowNanos, order))
              && processor.View() == out.state
              && (if out.events == []
                  then snapshot == old(snapshot) && file == old(file)
                       && eventCh == old(eventCh) && published == old(published)
                  else IsSnapshot(snapshot, out.state) && file == snapshot
                       && eventCh != [] && eventCh[|eventCh| - 1] == out.events)
    {
      hide IsRun, TagProcessor.Valid, PublishedEvents, History, Process, OneIteration, IsSnapshot, Enumerates;
      var events;
      events, order := SweepDeparted(nowNanos);
      if |events| > 0 {
        PersistAndSend(events, DepartedTick(nowNanos, order));
      }
    }

    method SweepDeparted(nowNanos: int) returns (events: seq<Event>, ghost order: seq<string>)
      requires Valid() && stage == Waiting
      modifies processor, processor.Repr, `snapshot, `stage, `states, `inputs
      ensures Valid() && processor == old(processor) && processor.Repr == old(processor.Repr)
      ensures Enumerates(order, old(processor.View()).tags.Keys)
      ensures inputs == old(inputs) + [DepartedTick(nowNanos, order)] && old(states) <= states
      ensures OneIteration(old(inputs), inputs, DepartedTick(nowNanos, order))
      ensures var out := Process(old(View()), AggregateDeparted(nowNanos, order));
              && Outcome(processor.View(), events) == out
              && (if out.events == [] then snapshot == old(snapshot) && stage == Waiting
                  else IsSnapshot(snapshot, out.state) && stage == Persisting(out.events))
    {
      hide IsRun, Step, History, Process, TagProcessor.Valid, IsSnapshot, Run, DepartOps, Enumerates, PublishedEvents;
      ghost var visited;
      var updated;
      events, updated, visited := processor.AggregateDeparted(nowNanos);
      if |events| > 0 {
        snapshot := updated.value;
        stage := Persisting(events);
      }
      order := visited;
      SweepsAreRuns(old(View()), nowNanos, order);
      DepartedStep(states[|states| - 1], nowNanos, order, View());
      Record(DepartedTick(nowNanos, order));
    }

    /** A number of tags is removed exactly if the inventory shrinks. */
    method HandleAgeOutTick(nowNanos: int) returns (ghost order: seq<string>)
      requires Valid() && stage == Waiting
      modifies this, processor, processor.Repr
      ensures Valid() && stage == Waiting
      ensures processor == old(processor) && processor.Repr == old(processor.Repr) && old(states) <= states
      ensures members == old(members) && Enumerates(order, old(processor.View()).tags.Keys)
      ensures var out := Process(old(View()), AgeOut(nowNanos, order));
              && OneIteration(old(inputs), inputs, AgeOutTick(nowNanos, order))
              && processor.View() == out.state && eventCh == old(eventCh) && published == old(published)
              && (if |out.state.tags| == |old(processor.View()).tags|
                  then snapshot == old(snapshot) && file == old(file)
                  else IsSnapshot(snapshot, out.state) && file == snapshot)
    {
      hide IsRun, TagProcessor.Valid, PublishedEvents, History, Process, IsSnapshot, Enumerates;
      var removed;
      removed, order := SweepAged(nowNanos);
      if removed {
        PersistSnapshot();
        assert inputs == old(inputs) + [AgeOutTick(nowNanos, order), Persist];
      }
    }

    method SweepAged(nowNanos: int) returns (removed: bool, ghost order: seq<string>)
      requires Valid() && stage == Waiting
      modifies processor, processor.Repr, `snapshot, `stage, `states, `inputs
      ensures Valid() && processor == old(processor) && processor.Repr == old(processor.Repr)
      ensures Enumerates(order, old(processor.View()).tags.Keys)
      ensures inputs == old(inputs) + [AgeOutTick(nowNanos, order)] && old(states) <= states
      ensures var out := Process(old(View()), AgeOut(nowNanos, order));
              && processor.View() == out.state && (removed <==> |out.state.tags| != |old(processor.View()).tags|)
              && (if !removed then snapshot == old(snapshot) && stage == Waiting
                  else IsSnapshot(snapshot, out.state) && stage == Persisting([]))
    {
      hide IsRun, Step, History, Process, TagProcessor.Valid, IsSnapshot, Run, AgeOps, Enumerates, PublishedEvents;
      var numRemoved, updated, visited := processor.AgeOut(nowNanos);
      removed := updated.Some?;
      if removed {
        snapshot := updated.value;
        stage := Persisting([]);
      }
      order := visited;
      SweepsAreRuns(old(View()), nowNanos, order);
      assert processor.View() == Process(old(View()), AgeOut(nowNanos, order)).state;
      assert removed <==> |processor.View().tags| != |old(processor.View()).tags|;
      AgeOutStep(states[|states| - 1], nowNanos, order, View());
      Record(AgeOutTick(nowNanos, order));
    }

    /** A configuration that does not validate is dropped. */
    method HandleConfig(cfg: CustomConfig)
      requires Valid() && stage == Waiting
      modifies this, processor, processor.Repr
      ensures Valid() && stage == Waiting
      ensures processor == old(processor) && processor.Repr == old(processor.Repr) && old(states) <= states
      ensures inputs == old(inputs) + [ConfigArrives(cfg)]
      ensures var settings := cfg.appSettings;
              processor.View() == if settings.departedThresholdSeconds != 0
                && settings.departedCheckIntervalSeconds != 0
                                     && settings.ageOutHours != 0
                                  then old(processor.View()).(config := NewProcessorConfig(cfg))
                                  else old(processor.View())
      ensures file == old(file) && eventCh == old(eventCh) && snapshot == old(snapshot) && published == old(published)
      ensures members == old(members)
    {
      hide IsRun, TagProcessor.Valid, Run;
      if cfg.appSettings.Validate() {
        RunOfConfig(processor.View(), cfg);
        processor.UpdateConfig(cfg);
      }
      Record(ConfigArrives(cfg));
    }

    /** A snapshot request is answered from the cache. */
    method HandleSnapshotRequest() returns (written: seq<StaticTag>)
      requires Valid() && stage == Waiting
      modifies `states, `inputs
      ensures Valid() && old(states) <= states && inputs == old(inputs) + [SnapshotRequested]
      ensures written == snapshot
    {
      hide IsRun, TagProcessor.Valid;
      written := snapshot;
      Record(SnapshotRequested);
    }

    /** A reader connects: it is in the group from then on, with no last values of its own yet. */
    method ReaderJoins(deviceName: string, filler: Filler)
      requires Valid()
      modifies `members
      ensures Valid() && members == old(members)[deviceName := filler]
    {
      members := members[deviceName := filler];
    }

    /** A reader disconnects: its reports are left as they are from then on. */
    method ReaderLeaves(deviceName: string)
      requires Valid()
      modifies `members
      ensures Valid() && members == old(members) - {deviceName}
    {
      members := members - {deviceName};
    }

    /** The context is cancelled: the channel is closed, the cached snapshot persisted once more, and
        the loop is gone once the consumer has emptied the channel. */
    method Stop()
      requires Valid() && stage == Waiting
      modifies `file, `eventCh, `taken, `published, `stage, `settled, `states, `inputs
      ensures Valid() && stage == Stopped && file == snapshot && old(states) <= states
      ensures Pending(View()) == [] && History(View()) == old(History(View()))
    {
      hide Valid, History, Pending;
      CloseAndPersist();
      AwaitConsumer();
      Leave();
    }

    method AwaitConsumer()
      requires Valid() && stage == Draining
      modifies `eventCh, `taken, `published, `settled, `states, `inputs
      ensures Valid() && taken.None? && eventCh == [] && old(states) <= states
      ensures History(View()) == old(History(View()))
    {
      hide Valid, History;
      while taken.Some? || eventCh != []
        invariant Valid() && old(states) <= states
        invariant History(View()) == old(History(View()))
        decreases 2 * |eventCh| + if taken.Some? then 1 else 0
      {
        Consume();
      }
    }

    method CloseAndPersist()
      requires Valid() && stage == Waiting
      modifies `file, `stage, `states, `inputs
      ensures Valid() && stage == Draining && file == snapshot && old(states) <= states
      ensures History(View()) == old(History(View()))
    {
      hide IsRun, TagProcessor.Valid, PublishedEvents;
      stage := Stopping;
      Record(Shutdown);
      hide Valid, History, Step;
      assert NewlyPersisted(View(), Persist) == [];
      PersistSnapshot();
    }

    method Leave()
      requires Valid() && stage == Draining && taken.None? && eventCh == []
      modifies `stage, `states, `inputs
      ensures Valid() && stage == Stopped && old(states) <= states
      ensures Pending(View()) == [] && History(View()) == old(History(View()))
    {
      hide IsRun, TagProcessor.Valid, PublishedEvents;
      stage := Stopped;
      Record(Finish);
    }

    ghost method RecordRestart(crashed: Loop, cfg: CustomConfig)
      requires states != [] && IsRun(states, inputs, initial) && states[|states| - 1] == crashed
      requires settled == crashed.settled && published == PublishedEvents(settled)
      requires processor.View() == Restore(crashed.file, cfg) && snapshot == file == crashed.file
      requires taken.None? && eventCh == []
      modifies `stage, `settled, `states, `inputs
      ensures stage == Waiting && settled == old(settled) + Lose(Pending(crashed))
      ensures published == PublishedEvents(settled) && IsRun(states, inputs, initial)
      ensures states == old(states) + [View()] && inputs == old(inputs) + [Restart(cfg)]
    {
      hide IsRun, Step, History, Pending, Lose, NewlyPersisted, TagProcessor.Valid, PublishedEvents, Restore;
      LosingPublishesNothing(settled, Pending(crashed));
      settled, stage := settled + Lose(Pending(crashed)), Waiting;
      RestartStep(crashed, cfg, View());
      Record(Restart(cfg));
    }

    /** The process starts again, after a stop or a crash at any stage, with what the file holds; what
        was on its way to the subscribers is gone. */
    method Boot(cfg: CustomConfig, members: Members)
      requires Valid()
      modifies this
      ensures Valid() && stage == Waiting && fresh(processor.Repr) && old(states) <= states
      ensures inputs == old(inputs) + [Restart(cfg)]
      ensures processor.View() == Restore(file, cfg) && snapshot == file == old(file)
      ensures eventCh == [] && taken == None && published == old(published)
      ensures settled == old(settled) + Lose(old(Pending(View())))
    {
      hide IsRun, Pending, TagProcessor.Valid, PublishedEvents, Restore;
      ghost var crashed := View();
      this.members := members;
      processor := new TagProcessor(cfg, file);
      snapshot, taken, eventCh := file, None, [];
      RecordRestart(crashed, cfg);
    }

    /** What the transition system guarantees over every run holds of this object at any time. */
    lemma Safe(e: string)
      requires Valid()
      ensures Mirrors(snapshot, processor.View()) && AllWellKept(processor.View())
      ensures Visits(Of(Persisted(View()), e))
      ensures Visits(Of(published, e)) <==> EvenlyMissed(settled, e)
      ensures !stage.Persisting? ==>
                && SameStates(RestoreTags(file), processor.View().tags)
                && (PhaseOf(processor.View(), e) == Here <==>
                    var mine := Of(Persisted(View()), e); mine != [] && !mine[|mine| - 1].DepartedEvent?)
    {
      LoopSafety(states, inputs, initial, |states| - 1, e);
      LoopKeepsTagsWell(states, inputs, initial, |states| - 1, e);
      PublishedStreamIff(states, inputs, initial, |states| - 1, e);
    }
  }
}
