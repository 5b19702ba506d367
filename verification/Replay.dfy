/** Rebuilding the whereabouts of the tags from the published events alone. */
module Replays {
  import opened Basics
  import opened Locations
  import opened TagReports
  import opened Inventory
  import opened Actions
  import opened EventLog

  /** The (alias of the) location of each tag that is present. */
  function Placed(s: InventoryState): map<string, string> {
    map e | e in s.tags && s.tags[e].state == Present :: s.config.Alias(s.tags[e].location)
  }

  /** An event is accepted only if it agrees with what the earlier events said about its tag. */
  function ReplayOne(m: map<string, string>, ev: Event): Option<map<string, string>> {
    match ev
    case ArrivedEvent(e, _, _, location) =>
      if e in m then None else Some(m[e := location])
    case MovedEvent(e, _, _, oldLocation, newLocation) =>
      if e in m && m[e] == oldLocation && oldLocation != newLocation then Some(m[e := newLocation]) else None
    case DepartedEvent(e, _, _, _, lastKnownLocation) =>
      if e in m && m[e] == lastKnownLocation then Some(m - {e}) else None
  }

  function Replay(m: map<string, string>, log: seq<Event>): Option<map<string, string>>
    decreases log
  {
    if log == [] then Some(m)
    else
      match ReplayOne(m, log[0])
      case None => None
      case Some(m') => Replay(m', log[1..])
  }

  lemma {:induction false} ReplayConcat(m: map<string, string>, a: seq<Event>, b: seq<Event>)
    ensures Replay(m, a + b) == if Replay(m, a).None? then None else Replay(Replay(m, a).value, b)
    decreases a
  {
    if a == [] {
      assert a + b == b;
    } else {
      assert (a + b)[1..] == a[1..] + b;
      var next := ReplayOne(m, a[0]);
      if next.Some? {
        ReplayConcat(next.value, a[1..], b);
      }
    }
  }

  /** The operations that change where a present tag is said to be without publishing it: its first
      location when it arrived without any, and a change of the aliases in use. */
  ghost predicate Breaks(s: InventoryState, op: Op) {
    match op
    case ReadOp(rt, info) =>
      && rt.EPC() in s.tags
      && var tag := s.tags[rt.EPC()];
      && tag.state == Present && tag.location.IsEmpty()
      && ReadLocation(rt, info).Some?
      && s.config.Alias(ReadLocation(rt, info).value) != s.config.Alias(tag.location)
    case ConfigOp(cfg) =>
      exists e :: e in s.tags && s.tags[e].state == Present
                  && NewProcessorConfig(cfg).Alias(s.tags[e].location) != s.config.Alias(s.tags[e].location)
    case _ => false
  }

  ghost predicate Faithful(s: InventoryState, ops: seq<Op>) {
    Replay(Placed(s), Run(s, ops).events) == Some(Placed(Run(s, ops).state))
  }

  lemma PlacedAfterPut(s: InventoryState, e: string, tag: TagRecord)
    ensures Placed(s.(tags := s.tags[e := tag])) ==
            if tag.state == Present then Placed(s)[e := s.config.Alias(tag.location)] else Placed(s) - {e}
    ensures e in Placed(s) <==> e in s.tags && s.tags[e].state == Present
    ensures e in Placed(s) ==> Placed(s)[e] == s.config.Alias(s.tags[e].location)
  {
  }

  lemma ReplaySingle(m: map<string, string>, ev: Event)
    ensures Replay(m, [ev]) == ReplayOne(m, ev)
  {
  }

  lemma ReadReplays(s: InventoryState, rt: TagReportData, info: ReportInfo)
    requires KeyedByEPC(s)
    ensures var out := ReadOutcome(s, rt, info);
            Replay(Placed(s), out.events) == Some(Placed(out.state)) <==> !Breaks(s, ReadOp(rt, info))
  {
    var e := rt.EPC();
    var prev := TagBefore(s, e);
    var settled := ReadTag(prev, rt, info, s.config);
    var read := ApplyRead(prev, rt, info, s.config.profile);
    LocationIsOldOrRead(prev, rt, info, s.config);
    hide ApplyRead, Placed, TagReportData.EPC, ProcessorConfig.Alias, Location.IsEmpty, Replay, ReadLocation;
    ReadKeepsIdentity(prev, rt, info, s.config);
    PlacedAfterPut(s, e, settled.tag);
    if settled.events == [] {
      ReplayNothing(Placed(s));
      var after := Placed(s)[e := s.config.Alias(read.location)];
      assert after[e] == s.config.Alias(read.location);
      if Placed(s)[e] == after[e] {
        assert after == Placed(s);
      }
    } else {
      ReplaySingle(Placed(s), settled.events[0]);
    }
  }

  lemma LocationIsOldOrRead(tag: TagRecord, rt: TagReportData, info: ReportInfo, config: ProcessorConfig)
    ensures var loc := ApplyRead(tag, rt, info, config.profile).location;
            loc == tag.location || ReadLocation(rt, info) == Some(loc)
    ensures ReadLocation(rt, info).Some? && tag.location.IsEmpty() ==>
              ReadLocation(rt, info) == Some(ApplyRead(tag, rt, info, config.profile).location)
  {
    hide Record;
  }

  lemma ReplayNothing(m: map<string, string>)
    ensures Replay(m, []) == Some(m)
  {
  }

  /** Exactly the breaking operations make the event log lose track of a tag. */
  lemma StepReplays(s: InventoryState, op: Op)
    requires KeyedByEPC(s)
    ensures Replay(Placed(s), Apply(s, op).events) == Some(Placed(Apply(s, op).state)) <==> !Breaks(s, op)
  {
    match op {
      case ReadOp(rt, info) =>
        ReadReplays(s, rt, info);
      case DepartOp(e, now) =>
        hide Placed, ProcessorConfig.Alias;
        if Apply(s, op).events != [] {
          PlacedAfterPut(s, e, Depart(s.tags[e], now));
          ReplaySingle(Placed(s), DepartureOf(s.tags[e], s.config, now));
        }
      case AgeOp(e, now) =>
        assert Placed(Apply(s, op).state) == Placed(s);
      case ConfigOp(cfg) =>
        hide ProcessorConfig.Alias;
        var after := Placed(Apply(s, op).state);
        if Breaks(s, op) {
          var e :| e in s.tags && s.tags[e].state == Present
                   && NewProcessorConfig(cfg).Alias(s.tags[e].location) != s.config.Alias(s.tags[e].location);
          assert Placed(s)[e] != after[e];
        } else {
          assert after == Placed(s);
        }
    }
  }

  ghost predicate FaithfulThroughout(s: InventoryState, ops: seq<Op>) {
    forall i :: 0 <= i <= |ops| ==> Faithful(s, ops[..i])
  }

  ghost predicate NeverBreaks(s: InventoryState, ops: seq<Op>) {
    forall i :: 0 <= i < |ops| ==> !Breaks(Run(s, ops[..i]).state, ops[i])
  }

  lemma ThroughoutSnoc(s: InventoryState, init: seq<Op>, op: Op)
    ensures FaithfulThroughout(s, init + [op]) <==> FaithfulThroughout(s, init) && Faithful(s, init + [op])
    ensures NeverBreaks(s, init + [op]) <==> NeverBreaks(s, init) && !Breaks(Run(s, init).state, op)
  {
    hide Apply, Faithful, Breaks, Run;
    var ops, n := init + [op], |init|;
    assert forall i :: 0 <= i <= n ==> ops[..i] == init[..i];
    assert ops[..n + 1] == ops && init[..n] == init;
    assert forall i :: 0 <= i < n ==> ops[i] == init[i];
    assert ops[n] == op;
  }

  /** The log replays to the right places at every point of a run if and only if no step breaks it. */
  lemma {:induction false} FaithfulIffNothingBreaks(s: InventoryState, ops: seq<Op>)
    requires KeyedByEPC(s)
    ensures FaithfulThroughout(s, ops) <==> NeverBreaks(s, ops)
  {
    hide Apply, Placed, Breaks, KeyedByEPC, Replay;
    if ops == [] {
      ReplayNothing(Placed(s));
    } else {
      hide FaithfulThroughout, NeverBreaks;
      var n := |ops| - 1;
      var init, op := ops[..n], ops[n];
      assert ops == init + [op];
      FaithfulIffNothingBreaks(s, init);
      ThroughoutSnoc(s, init, op);
      if FaithfulThroughout(s, init) {
        assert Faithful(s, init) by { AtTheEnd(s, init); }
        var mid := Run(s, init);
        EventsFollowPresence(s, init, "");
        StepReplays(mid.state, op);
        ReplayConcat(Placed(s), mid.events, Apply(mid.state, op).events);
      }
    }
  }

  lemma AtTheEnd(s: InventoryState, ops: seq<Op>)
    requires FaithfulThroughout(s, ops)
    ensures Faithful(s, ops)
  {
    assert ops[..|ops|] == ops;
  }

  // ---- Runs in which every read says where it was made ----

  /** No tag is present without a location. */
  ghost predicate Located(s: InventoryState) {
    forall e :: e in s.tags && s.tags[e].state == Present ==> !s.tags[e].location.IsEmpty()
  }

  /** A read gives a location, or at least does not have to: its tag already has one. */
  predicate Locates(s: InventoryState, op: Op) {
    match op
    case ReadOp(rt, info) =>
      (match ReadLocation(rt, info)
       case Some(loc) => !loc.IsEmpty()
       case None => rt.EPC() in s.tags && !s.tags[rt.EPC()].location.IsEmpty())
    case ConfigOp(cfg) => cfg.aliases - {""} == s.config.aliases
    case _ => true
  }

  lemma LocatesStep(s: InventoryState, op: Op)
    requires Located(s) && Locates(s, op)
    ensures Located(Apply(s, op).state) && !Breaks(s, op)
  {
    match op {
      case ReadOp(rt, info) =>
        var prev := TagBefore(s, rt.EPC());
        LocationIsOldOrRead(prev, rt, info, s.config);
        hide ApplyRead, TagReportData.EPC, ProcessorConfig.Alias, Location.IsEmpty, ReadLocation;
      case DepartOp(e, now) =>
      case AgeOp(e, now) =>
      case ConfigOp(cfg) =>
        assert forall loc: Location :: NewProcessorConfig(cfg).Alias(loc) == s.config.Alias(loc);
    }
  }

  /** If every read locates its tag and the aliases stay the same, the event log alone tells where
      every present tag is, at every point of the run. */
  lemma {:induction false} LogTellsWhere(s: InventoryState, ops: seq<Op>)
    requires KeyedByEPC(s) && Located(s)
    requires forall i :: 0 <= i < |ops| ==> Locates(Run(s, ops[..i]).state, ops[i])
    ensures FaithfulThroughout(s, ops) && Located(Run(s, ops).state)
  {
    hide Apply, Placed, Breaks, KeyedByEPC, Replay, Faithful, Locates, Located;
    if ops == [] {
      FaithfulIffNothingBreaks(s, ops);
    } else {
      var n := |ops| - 1;
      var init, op := ops[..n], ops[n];
      assert ops == init + [op];
      forall i | 0 <= i < n
        ensures Locates(Run(s, init[..i]).state, init[i])
      {
        assert init[..i] == ops[..i];
      }
      LogTellsWhere(s, init);
      LocatesStep(Run(s, init).state, op);
      FaithfulIffNothingBreaks(s, init);
      FaithfulIffNothingBreaks(s, ops);
      ThroughoutSnoc(s, init, op);
    }
  }

  /** What a caller can check beforehand: a named device and an antenna on every read, and aliases
      that do not change. */
  ghost predicate PlainOp(op: Op, aliases: map<string, string>) {
    match op
    case ReadOp(rt, info) => info.deviceName != "" && AntennaID in rt.optional
    case ConfigOp(cfg) => cfg.aliases - {""} == aliases
    case _ => true
  }

  ghost predicate PlainAction(a: Action, aliases: map<string, string>) {
    match a
    case Report(report, device, _) =>
      device != "" && forall i :: 0 <= i < |report| ==> AntennaID in report[i].optional
    case UpdateConfig(cfg) => cfg.aliases - {""} == aliases
    case _ => true
  }

  lemma {:induction false} PlainOps(s: InventoryState, acts: seq<Action>, aliases: map<string, string>)
    requires forall i :: 0 <= i < |acts| ==> PlainAction(acts[i], aliases)
    ensures forall i :: 0 <= i < |AllOps(s, acts)| ==> PlainOp(AllOps(s, acts)[i], aliases)
  {
    hide Run, Exec;
    if acts != [] {
      PlainOps(s, acts[..|acts| - 1], aliases);
      assert PlainAction(acts[|acts| - 1], aliases);
    }
  }

  lemma PlainStep(s: InventoryState, op: Op)
    requires PlainOp(op, s.config.aliases)
    ensures Locates(s, op) && Apply(s, op).state.config.aliases == s.config.aliases
  {
    hide ReadTag, TagReportData.EPC;
  }

  lemma {:induction false} PlainOpsLocate(s: InventoryState, ops: seq<Op>)
    requires forall i :: 0 <= i < |ops| ==> PlainOp(ops[i], s.config.aliases)
    ensures forall i :: 0 <= i < |ops| ==> Locates(Run(s, ops[..i]).state, ops[i])
    ensures Run(s, ops).state.config.aliases == s.config.aliases
  {
    hide Apply, Locates, PlainOp;
    if ops != [] {
      var n := |ops| - 1;
      var init := ops[..n];
      PlainOpsLocate(s, init);
      PlainStep(Run(s, init).state, ops[n]);
      forall i | 0 <= i < n
        ensures Locates(Run(s, ops[..i]).state, ops[i])
      {
        assert init[..i] == ops[..i] && init[i] == ops[i];
      }
    }
  }

  /** From an empty inventory, with a named device and an antenna on every read and fixed aliases,
      replaying the published events gives the alias of every present tag's location: each event's
      old location is where the log last put the tag, and no Moved event has equal ends. */
  lemma WhereaboutsFromLog(config: ProcessorConfig, acts: seq<Action>)
    requires forall i :: 0 <= i < |acts| ==> PlainAction(acts[i], config.aliases)
    ensures var out := Exec(InventoryState(map[], config), acts);
            Replay(map[], out.events) == Some(Placed(out.state))
  {
    hide Apply, Run, PlainOp, PlainAction, Replay;
    var s := InventoryState(map[], config);
    ExecIsRun(s, acts);
    PlainOps(s, acts, config.aliases);
    PlainOpsLocate(s, AllOps(s, acts));
    LogTellsWhere(s, AllOps(s, acts));
    AtTheEnd(s, AllOps(s, acts));
    assert Placed(s) == map[];
  }

  const UNLOCATED_READ := TagReportData([0xE2], [], map[], None, [])
  const LOCATED_READ := TagReportData([0xE2], [], map[AntennaID := 1], None, [])

  /** Two operations, of which only the second breaks: the log is right after the first, and wrong
      after both. */
  lemma BreaksAtSecond(s: InventoryState, first: Op, second: Op)
    requires KeyedByEPC(s) && !Breaks(s, first) && Breaks(Apply(s, first).state, second)
    ensures Faithful(s, [first]) && !Faithful(s, [first, second])
  {
    hide Apply, Breaks, Placed, KeyedByEPC, Replay;
    var mid := Apply(s, first);
    assert [first] == [] + [first] && [first, second] == [first] + [second];
    RunSnoc(s, [], first);
    assert [] + mid.events == mid.events;
    assert Run(s, [first]) == mid;
    StepReplays(s, first);
    EventsFollowPresence(s, [first], "");
    StepReplays(mid.state, second);
    RunSnoc(s, [first], second);
    ReplayConcat(Placed(s), mid.events, Apply(mid.state, second).events);
  }

  lemma FirstReadPlaces(config: ProcessorConfig, rt: TagReportData, loc: Location)
    requires rt in {UNLOCATED_READ, LOCATED_READ}
    requires loc == if rt == LOCATED_READ then Location("reader", 1) else NOWHERE
    ensures var s := InventoryState(map[], config);
            var op := ReadOp(rt, NewReportInfo("reader", 0));
            var mid := Apply(s, op).state;
            && !Breaks(s, op) && mid.config == config && rt.EPC() in mid.tags
            && mid.tags[rt.EPC()].state == Present && mid.tags[rt.EPC()].location == loc
  {
    hide TagReportData.EPC, ProcessorConfig.Alias, Location.String;
  }

  /** Without an antenna on the first read the log does lose track: the tag arrives nowhere, and
      its first location is never published. */
  lemma UnlocatedArrivalIsLost(config: ProcessorConfig)
    requires config.aliases == map[]
    ensures var s := InventoryState(map[], config);
            var info := NewReportInfo("reader", 0);
            var ops := [ReadOp(UNLOCATED_READ, info), ReadOp(LOCATED_READ, info)];
            Faithful(s, ops[..1]) && !Faithful(s, ops)
  {
    var s := InventoryState(map[], config);
    var info := NewReportInfo("reader", 0);
    var first, second := ReadOp(UNLOCATED_READ, info), ReadOp(LOCATED_READ, info);
    FirstReadPlaces(config, UNLOCATED_READ, NOWHERE);
    StringInjective(Location("reader", 1), NOWHERE);
    assert Breaks(Apply(s, first).state, second);
    BreaksAtSecond(s, first, second);
    assert [first, second][..1] == [first];
  }

  /** Nor is a new name for a location where a tag is present ever published. */
  lemma RenamingIsLost(config: ProcessorConfig, cfg: CustomConfig)
    requires config.aliases == map[] && cfg.aliases == map[Location("reader", 1).String() := "dock"]
    ensures var s := InventoryState(map[], config);
            var ops := [ReadOp(LOCATED_READ, NewReportInfo("reader", 0)), ConfigOp(cfg)];
            Faithful(s, ops[..1]) && !Faithful(s, ops)
  {
    var s := InventoryState(map[], config);
    var first, second := ReadOp(LOCATED_READ, NewReportInfo("reader", 0)), ConfigOp(cfg);
    FirstReadPlaces(config, LOCATED_READ, Location("reader", 1));
    var name := Location("reader", 1).String();
    assert |name| > |"dock"|;
    var mid := Apply(s, first).state;
    assert mid.tags[LOCATED_READ.EPC()].state == Present;
    assert NewProcessorConfig(cfg).Alias(Location("reader", 1)) == "dock";
    assert config.Alias(Location("reader", 1)) == name;
    assert Breaks(mid, second);
    BreaksAtSecond(s, first, second);
    assert [first, second][..1] == [first];
  }
}
