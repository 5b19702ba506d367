/** The two sweeps: what they do to the whole inventory, whatever order the tags are visited in. */
module Sweeps {
  import opened Inventory
  import opened EventLog
  import opened TagReports

  /** Despite the truncation toward zero, a tag is overdue exactly when it has been silent for more
      than the threshold, in whole milliseconds; and its departure records just that silence. */
  lemma OverdueMeans(tag: TagRecord, config: ProcessorConfig, nowNanos: int)
    requires 0 <= tag.lastRead
    ensures Overdue(tag, config, nowNanos) <==>
            tag.state == Present && nowNanos / 1_000_000 - tag.lastRead > config.departedThresholdSeconds * 1000
    ensures Overdue(tag, config, nowNanos) ==>
              Depart(tag, nowNanos).lastDeparted - tag.lastRead > config.departedThresholdSeconds * 1000
  {
    var silence := config.departedThresholdSeconds * 1000;
    assert nowNanos - config.departedThresholdSeconds * 1_000_000_000 == nowNanos - 1_000_000 * silence;
    assert (nowNanos - 1_000_000 * silence) / 1_000_000 == nowNanos / 1_000_000 - silence;
  }

  /** A tag expires exactly when it has departed and was last read more than the age limit ago. */
  lemma ExpiredMeans(tag: TagRecord, config: ProcessorConfig, nowNanos: int)
    ensures Expired(tag, config, nowNanos) <==>
            tag.state == Departed && nowNanos / 1_000_000 - tag.lastRead > config.ageOutHours * 3_600_000
  {
    var limit := config.ageOutHours * 3_600_000;
    assert nowNanos - config.ageOutHours * 3_600_000_000_000 == nowNanos - 1_000_000 * limit;
    assert (nowNanos - 1_000_000 * limit) / 1_000_000 == nowNanos / 1_000_000 - limit;
  }

  /** Every overdue tag departed, every other tag as it was. */
  function AfterDepartures(s: InventoryState, visited: seq<string>, nowNanos: int): InventoryState {
    s.(tags := map e | e in s.tags ::
                 if e in visited && Overdue(s.tags[e], s.config, nowNanos)
                 then Depart(s.tags[e], nowNanos)
                 else s.tags[e])
  }

  /** One departure for each overdue tag visited, in the order of the visits. */
  function Departures(s: InventoryState, visited: seq<string>, nowNanos: int): seq<Event> {
    if visited == [] then []
    else
      var e := visited[|visited| - 1];
      Departures(s, visited[..|visited| - 1], nowNanos)
      + if e in s.tags && Overdue(s.tags[e], s.config, nowNanos)
        then [DepartureOf(s.tags[e], s.config, nowNanos)] else []
  }

  ghost predicate NoRepeats(order: seq<string>) {
    forall i, j :: 0 <= i < j < |order| ==> order[i] != order[j]
  }

  lemma DepartedSnoc(s: InventoryState, init: seq<string>, e: string, nowNanos: int)
    requires e !in init
    ensures AfterDepartures(s, init + [e], nowNanos) ==
            Apply(AfterDepartures(s, init, nowNanos), DepartOp(e, nowNanos)).state
    ensures Apply(AfterDepartures(s, init, nowNanos), DepartOp(e, nowNanos)).events ==
            if e in s.tags && Overdue(s.tags[e], s.config, nowNanos)
            then [DepartureOf(s.tags[e], s.config, nowNanos)] else []
  {
    hide Overdue, Depart, DepartureOf;
    var mid := AfterDepartures(s, init, nowNanos);
    assert forall x :: x in init + [e] <==> x in init || x == e;
    assert e in s.tags ==> mid.tags[e] == s.tags[e];
    assert AfterDepartures(s, init + [e], nowNanos).tags == Apply(mid, DepartOp(e, nowNanos)).state.tags;
  }

  lemma {:induction false} DepartSweepRun(s: InventoryState, order: seq<string>, nowNanos: int)
    requires NoRepeats(order)
    ensures Run(s, DepartOps(order, nowNanos)) ==
            Outcome(AfterDepartures(s, order, nowNanos), Departures(s, order, nowNanos))
  {
    if order == [] {
      assert AfterDepartures(s, [], nowNanos).tags == s.tags;
    } else {
      var init, e := order[..|order| - 1], order[|order| - 1];
      DepartSweepRun(s, init, nowNanos);
      assert order == init + [e];
      DepartedSnoc(s, init, e, nowNanos);
      SweepSnoc(init, e, nowNanos);
      RunSnoc(s, DepartOps(init, nowNanos), DepartOp(e, nowNanos));
      hide Apply, AfterDepartures, Overdue, Depart, DepartureOf, DepartOps, Run;
    }
  }

  ghost predicate OverdueIn(s: InventoryState, e: string, nowNanos: int) {
    e in s.tags && Overdue(s.tags[e], s.config, nowNanos)
  }

  lemma {:induction false} OneDepartureEach(s: InventoryState, visited: seq<string>, nowNanos: int, e: string)
    requires KeyedByEPC(s) && NoRepeats(visited)
    ensures Of(Departures(s, visited, nowNanos), e) ==
            if e in visited && OverdueIn(s, e, nowNanos) then [DepartureOf(s.tags[e], s.config, nowNanos)] else []
  {
    hide Overdue, ProcessorConfig.Alias;
    if visited != [] {
      var init, x := visited[..|visited| - 1], visited[|visited| - 1];
      OneDepartureEach(s, init, nowNanos, e);
      assert forall y :: y in visited <==> y in init || y == x;
      assert x !in init;
      var rest := Departures(s, visited, nowNanos)[|Departures(s, init, nowNanos)|..];
      OfConcat(Departures(s, init, nowNanos), rest, e);
      assert Departures(s, visited, nowNanos) == Departures(s, init, nowNanos) + rest;
    }
  }

  lemma {:induction false} OfConcat(a: seq<Event>, b: seq<Event>, e: string)
    ensures Of(a + b, e) == Of(a, e) + Of(b, e)
  {
    if a == [] {
      assert a + b == b;
    } else {
      assert (a + b)[1..] == a[1..] + b;
      OfConcat(a[1..], b, e);
    }
  }

  /** Whatever the order of the visits: exactly the present tags not read since the threshold
      depart, each with exactly one event; the others are untouched; and repeating the sweep at the
      same time changes nothing and says nothing. */
  lemma AggregateDepartedExactly(s: InventoryState, order: seq<string>, again: seq<string>, nowNanos: int, e: string)
    requires KeyedByEPC(s) && Enumerates(order, s.tags.Keys) && NoRepeats(again)
    ensures var out := Run(s, DepartOps(order, nowNanos));
            && out.state.config == s.config && out.state.tags.Keys == s.tags.Keys
            && (e in s.tags ==>
                  out.state.tags[e] ==
                  if Overdue(s.tags[e], s.config, nowNanos) then Depart(s.tags[e], nowNanos) else s.tags[e])
            && Of(out.events, e) ==
               (if OverdueIn(s, e, nowNanos) then [DepartureOf(s.tags[e], s.config, nowNanos)] else [])
            && Run(out.state, DepartOps(again, nowNanos)) == Outcome(out.state, [])
  {
    hide Apply, Run, ProcessorConfig.Alias;
    DepartSweepRun(s, order, nowNanos);
    OneDepartureEach(s, order, nowNanos, e);
    var after := AfterDepartures(s, order, nowNanos);
    DepartSweepRun(after, again, nowNanos);
    NothingOverdue(after, again, nowNanos);
  }

  lemma {:induction false} NothingOverdue(s: InventoryState, visited: seq<string>, nowNanos: int)
    requires forall e :: e in s.tags ==> !Overdue(s.tags[e], s.config, nowNanos)
    ensures Departures(s, visited, nowNanos) == [] && AfterDepartures(s, visited, nowNanos) == s
  {
    assert AfterDepartures(s, visited, nowNanos).tags == s.tags;
    if visited != [] {
      NothingOverdue(s, visited[..|visited| - 1], nowNanos);
    }
  }

  // ---- Age-out ----

  function Remaining(s: InventoryState, visited: seq<string>, nowNanos: int): InventoryState {
    s.(tags := map e | e in s.tags && !(e in visited && Expired(s.tags[e], s.config, nowNanos)) :: s.tags[e])
  }

  lemma RemainingSnoc(s: InventoryState, init: seq<string>, e: string, nowNanos: int)
    ensures Apply(Remaining(s, init, nowNanos), AgeOp(e, nowNanos)) == Outcome(Remaining(s, init + [e], nowNanos), [])
  {
    hide Expired;
    assert forall x :: x in init + [e] <==> x in init || x == e;
    assert Apply(Remaining(s, init, nowNanos), AgeOp(e, nowNanos)).state.tags ==
      Remaining(s, init + [e], nowNanos).tags;
  }

  lemma {:induction false} AgeSweepRun(s: InventoryState, order: seq<string>, nowNanos: int)
    ensures Run(s, AgeOps(order, nowNanos)) == Outcome(Remaining(s, order, nowNanos), [])
  {
    if order == [] {
      assert Remaining(s, [], nowNanos).tags == s.tags;
    } else {
      var init, e := order[..|order| - 1], order[|order| - 1];
      AgeSweepRun(s, init, nowNanos);
      assert order == init + [e];
      RemainingSnoc(s, init, e, nowNanos);
      SweepSnoc(init, e, nowNanos);
      RunSnoc(s, AgeOps(init, nowNanos), AgeOp(e, nowNanos));
      hide Apply, Remaining, AgeOps, Run;
    }
  }

  /** Whatever the order of the visits: exactly the departed tags not read within the age limit are
      removed, the others are untouched, nothing is published, and repeating the sweep at the same
      time removes nothing. */
  lemma AgeOutExactly(s: InventoryState, order: seq<string>, again: seq<string>, nowNanos: int, e: string)
    requires Enumerates(order, s.tags.Keys)
    ensures var out := Run(s, AgeOps(order, nowNanos));
            && out.events == [] && out.state.config == s.config
            && (e in out.state.tags <==> e in s.tags && !Expired(s.tags[e], s.config, nowNanos))
            && (e in out.state.tags ==> out.state.tags[e] == s.tags[e])
            && Run(out.state, AgeOps(again, nowNanos)) == out
  {
    hide Apply, Run, Expired;
    AgeSweepRun(s, order, nowNanos);
    var after := Remaining(s, order, nowNanos);
    AgeSweepRun(after, again, nowNanos);
    assert Remaining(after, again, nowNanos).tags == after.tags;
  }

  lemma {:induction false} StoredTagsWereAnnounced(s: InventoryState, ops: seq<Op>, e: string)
    requires KeyedByEPC(s) && e !in s.tags
    ensures e in Run(s, ops).state.tags ==> Of(Run(s, ops).events, e) != []
  {
    if ops != [] {
      var init, op := ops[..|ops| - 1], ops[|ops| - 1];
      StoredTagsWereAnnounced(s, init, e);
      EventsFollowPresence(s, init, e);
      var mid := Run(s, init);
      ApplyKeepsKeys(mid.state, op);
      OfConcat(mid.events, Apply(mid.state, op).events, e);
      hide Run, ApplyRead, TagReportData.EPC, ProcessorConfig.Alias, Overdue, Expired;
      if e !in mid.state.tags && e in Apply(mid.state, op).state.tags {
        assert Of(Apply(mid.state, op).events, e) == Apply(mid.state, op).events;
      }
    }
  }

  /** No tag is aged out unless the last event published about it is its departure. */
  lemma OnlyAnnouncedDeparturesAgeOut(config: ProcessorConfig, ops: seq<Op>, e: string, nowNanos: int)
    requires var mid := Run(InventoryState(map[], config), ops).state;
             e in mid.tags && e !in Apply(mid, AgeOp(e, nowNanos)).state.tags
    ensures var mine := Of(Run(InventoryState(map[], config), ops).events, e);
            mine != [] && mine[|mine| - 1].DepartedEvent?
  {
    hide Run, Apply, Of, Follow, PhaseOf;
    var s := InventoryState(map[], config);
    assert PhaseOf(s, e) == Away by { NobodyThere(config, e); }
    EventsFollowPresence(s, ops, e);
    StoredTagsWereAnnounced(s, ops, e);
    AgedOutIsAway(Run(s, ops).state, e, nowNanos);
    LastEventDecidesPhase(Away, Run(s, ops).events, e);
  }

  lemma NobodyThere(config: ProcessorConfig, e: string)
    ensures PhaseOf(InventoryState(map[], config), e) == Away
  {
  }

  lemma AgedOutIsAway(s: InventoryState, e: string, nowNanos: int)
    requires e in s.tags && e !in Apply(s, AgeOp(e, nowNanos)).state.tags
    ensures PhaseOf(s, e) == Away
  {
  }
}
