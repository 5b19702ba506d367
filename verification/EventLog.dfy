/** What the sequence of published events says about the inventory, over every run. */
module EventLog {
  import opened TagReports
  import opened Inventory
  import opened Actions

  // ---- One tag's events form a prefix of (Arrived Moved* Departed)* ----

  datatype Phase = Away | Here | Broken

  function Next(p: Phase, ev: Event, epc: string): Phase {
    if ev.epc != epc then p
    else
      match ev
      case ArrivedEvent(_, _, _, _) => if p == Away then Here else Broken
      case MovedEvent(_, _, _, _, _) => if p == Here then Here else Broken
      case DepartedEvent(_, _, _, _, _) => if p == Here then Away else Broken
  }

  function Follow(p: Phase, log: seq<Event>, epc: string): Phase
    decreases log
  {
    if log == [] then p else Follow(Next(p, log[0], epc), log[1..], epc)
  }

  lemma {:induction false} FollowConcat(p: Phase, a: seq<Event>, b: seq<Event>, epc: string)
    ensures Follow(p, a + b, epc) == Follow(Follow(p, a, epc), b, epc)
    decreases a
  {
    if a == [] {
      assert a + b == b;
    } else {
      assert (a + b)[1..] == a[1..] + b;
      FollowConcat(Next(p, a[0], epc), a[1..], b, epc);
    }
  }

  function PhaseOf(s: InventoryState, epc: string): Phase {
    if epc in s.tags && s.tags[epc].state == Present then Here else Away
  }

  /** The events of one tag. */
  function Of(log: seq<Event>, epc: string): seq<Event> {
    if log == [] then []
    else if log[0].epc == epc then [log[0]] + Of(log[1..], epc)
    else Of(log[1..], epc)
  }

  /** Prefixes of (Arrived Moved* Departed)*. */
  predicate Visits(evs: seq<Event>) {
    evs == [] || (evs[0].ArrivedEvent? && Visit(evs[1..]))
  }

  /** Prefixes of Moved* Departed (Arrived Moved* Departed)*. */
  predicate Visit(evs: seq<Event>) {
    || evs == []
    || (evs[0].MovedEvent? && Visit(evs[1..]))
    || (evs[0].DepartedEvent? && Visits(evs[1..]))
  }

  lemma {:induction false} BrokenStays(log: seq<Event>, epc: string)
    ensures Follow(Broken, log, epc) == Broken
  {
    if log != [] {
      BrokenStays(log[1..], epc);
    }
  }

  /** The automaton accepts exactly the language. */
  lemma {:induction false} FollowDecidesLanguage(log: seq<Event>, epc: string)
    ensures Follow(Away, log, epc) != Broken <==> Visits(Of(log, epc))
    ensures Follow(Here, log, epc) != Broken <==> Visit(Of(log, epc))
  {
    if log != [] {
      FollowDecidesLanguage(log[1..], epc);
      BrokenStays(log[1..], epc);
      if log[0].epc == epc {
        assert Of(log, epc)[1..] == Of(log[1..], epc);
      }
    }
  }

  lemma ReadKeepsIdentity(tag: TagRecord, rt: TagReportData, info: ReportInfo, config: ProcessorConfig)
    ensures var read := ApplyRead(tag, rt, info, config.profile);
            && read.epc == tag.epc && read.state == tag.state
            && read.lastArrived == tag.lastArrived && read.lastDeparted == tag.lastDeparted
  {
    hide ChooseLocation;
  }

  lemma ApplyKeepsKeys(s: InventoryState, op: Op)
    requires KeyedByEPC(s)
    ensures KeyedByEPC(Apply(s, op).state)
    ensures op.ReadOp? ==> ReadTag(TagBefore(s, op.rt.EPC()), op.rt, op.info, s.config).tag.epc == op.rt.EPC()
  {
    hide ApplyRead, TagReportData.EPC, ProcessorConfig.Alias;
    if op.ReadOp? {
      ReadKeepsIdentity(TagBefore(s, op.rt.EPC()), op.rt, op.info, s.config);
    }
  }

  /** One operation raises at most one event, and it is the one that its tag's change of state asks for. */
  lemma StepFollows(s: InventoryState, op: Op, epc: string)
    requires KeyedByEPC(s)
    ensures Follow(PhaseOf(s, epc), Apply(s, op).events, epc) == PhaseOf(Apply(s, op).state, epc)
  {
    hide ApplyRead, TagReportData.EPC, ProcessorConfig.Alias;
    if op.ReadOp? {
      ReadKeepsIdentity(TagBefore(s, op.rt.EPC()), op.rt, op.info, s.config);
    }
    var evs := Apply(s, op).events;
    assert |evs| <= 1;
    if evs != [] {
      assert Follow(PhaseOf(s, epc), evs, epc) == Next(PhaseOf(s, epc), evs[0], epc);
    }
  }

  /** Over every run, from any inventory, each tag's events follow its presence. */
  lemma {:induction false} EventsFollowPresence(s: InventoryState, ops: seq<Op>, epc: string)
    requires KeyedByEPC(s)
    ensures KeyedByEPC(Run(s, ops).state)
    ensures Follow(PhaseOf(s, epc), Run(s, ops).events, epc) == PhaseOf(Run(s, ops).state, epc)
  {
    hide Apply, PhaseOf, KeyedByEPC;
    if ops != [] {
      var init, op := ops[..|ops| - 1], ops[|ops| - 1];
      EventsFollowPresence(s, init, epc);
      var mid := Run(s, init);
      StepFollows(mid.state, op, epc);
      ApplyKeepsKeys(mid.state, op);
      FollowConcat(PhaseOf(s, epc), mid.events, Apply(mid.state, op).events, epc);
    }
  }

  // ---- Arrivals minus departures count the tags that are present ----

  function PresentTags(s: InventoryState): set<string> {
    set e | e in s.tags && s.tags[e].state == Present
  }

  function Balance(log: seq<Event>): int {
    if log == [] then 0
    else
      var ev := log[|log| - 1];
      Balance(log[..|log| - 1]) + if ev.ArrivedEvent? then 1 else if ev.DepartedEvent? then -1 else 0
  }

  lemma {:induction false} BalanceConcat(a: seq<Event>, b: seq<Event>)
    ensures Balance(a + b) == Balance(a) + Balance(b)
  {
    if b == [] {
      assert a + b == a;
    } else {
      assert (a + b)[..|a + b| - 1] == a + b[..|b| - 1];
      BalanceConcat(a, b[..|b| - 1]);
    }
  }

  lemma PresentAfterPut(s: InventoryState, e: string, tag: TagRecord)
    ensures PresentTags(s.(tags := s.tags[e := tag])) ==
            if tag.state == Present then PresentTags(s) + {e} else PresentTags(s) - {e}
  {
  }

  lemma StepBalance(s: InventoryState, op: Op)
    ensures |PresentTags(Apply(s, op).state)| == |PresentTags(s)| + Balance(Apply(s, op).events)
  {
    match op {
      case ReadOp(rt, info) =>
        ReadBalance(s, rt, info);
      case DepartOp(e, now) =>
        hide PresentTags, ProcessorConfig.Alias;
        if Apply(s, op).events != [] {
          PresentAfterPut(s, e, Depart(s.tags[e], now));
          PresentIff(s, e);
        }
      case AgeOp(e, now) =>
        assert PresentTags(Apply(s, op).state) == PresentTags(s);
      case ConfigOp(cfg) =>
        assert PresentTags(Apply(s, op).state) == PresentTags(s);
    }
  }

  lemma ReadBalance(s: InventoryState, rt: TagReportData, info: ReportInfo)
    ensures var out := ReadOutcome(s, rt, info);
            |PresentTags(out.state)| == |PresentTags(s)| + Balance(out.events)
  {
    hide ApplyRead, TagReportData.EPC, ProcessorConfig.Alias, PresentTags, Balance;
    var prev := TagBefore(s, rt.EPC());
    var settled := ReadTag(prev, rt, info, s.config);
    ReadKeepsIdentity(prev, rt, info, s.config);
    PresentAfterPut(s, rt.EPC(), settled.tag);
    PresentIff(s, rt.EPC());
    if settled.events == [] {
      BalanceNone();
    } else {
      BalanceOne(settled.events[0]);
    }
    if prev.state == Present {
      assert PresentTags(s) + {rt.EPC()} == PresentTags(s);
    }
  }

  lemma BalanceNone()
    ensures Balance([]) == 0
  {
  }

  lemma BalanceOne(ev: Event)
    ensures Balance([ev]) == if ev.ArrivedEvent? then 1 else if ev.DepartedEvent? then -1 else 0
  {
    assert [ev][..0] == [];
  }

  lemma PresentIff(s: InventoryState, e: string)
    ensures e in PresentTags(s) <==> e in s.tags && s.tags[e].state == Present
  {
  }

  lemma {:induction false} RunBalance(s: InventoryState, ops: seq<Op>)
    ensures |PresentTags(Run(s, ops).state)| == |PresentTags(s)| + Balance(Run(s, ops).events)
  {
    hide Apply, PresentTags;
    if ops != [] {
      var init := ops[..|ops| - 1];
      RunBalance(s, init);
      StepBalance(Run(s, init).state, ops[|ops| - 1]);
      BalanceConcat(Run(s, init).events, Apply(Run(s, init).state, ops[|ops| - 1]).events);
    }
  }

  /** The main law of the event stream: from an empty inventory, whatever the reports, sweeps and
      configuration changes, each tag's events are a prefix of (Arrived Moved* Departed)*, a tag is
      present exactly when its last event is not a departure, and the stream's balance is the
      number of tags present. */
  lemma EventStream(config: ProcessorConfig, acts: seq<Action>, epc: string)
    ensures var out := Exec(InventoryState(map[], config), acts);
            var mine := Of(out.events, epc);
            && Visits(mine)
            && (epc in PresentTags(out.state) <==> mine != [] && !mine[|mine| - 1].DepartedEvent?)
            && |PresentTags(out.state)| == Balance(out.events)
  {
    hide Apply;
    var s := InventoryState(map[], config);
    var out := Exec(s, acts);
    ExecIsRun(s, acts);
    EventsFollowPresence(s, AllOps(s, acts), epc);
    RunBalance(s, AllOps(s, acts));
    assert PresentTags(s) == {};
    FollowDecidesLanguage(out.events, epc);
    LastEventDecidesPhase(Away, out.events, epc);
  }

  lemma {:induction false} LastEventDecidesPhase(p: Phase, log: seq<Event>, epc: string)
    requires Follow(p, log, epc) != Broken
    ensures var mine := Of(log, epc);
            Follow(p, log, epc) == if mine == [] then p else if mine[|mine| - 1].DepartedEvent? then Away else Here
    decreases log
  {
    if log != [] {
      LastEventDecidesPhase(Next(p, log[0], epc), log[1..], epc);
    }
  }
}
