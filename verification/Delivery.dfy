/** What becomes of the events on their way out: which of them are published, what loses the others,
    and when a subscriber can still make sense of what is left. */
module Deliveries {
  import opened Basics
  import opened TagReports
  import opened Inventory
  import opened Actions
  import opened EventLog
  import opened Sweeps
  import opened Replays
  import opened TaskLoops

  // ---- What decides a batch's fate ----

  /** The steps that settle a batch: a failing publication drops it, and a crash loses whatever has
      been persisted but not yet published. */
  ghost predicate Settles(l: Loop, input: Input, fate: Fate) {
    match fate
    case Published => input == Deliver(true)
    case Dropped => input == Deliver(false)
    case Lost => input.Restart? && Pending(l) != []
  }

  ghost predicate Suffered(settled: seq<Batch>, fate: Fate) {
    exists j :: 0 <= j < |settled| && settled[j].fate == fate
  }

  lemma SufferedConcat(a: seq<Batch>, b: seq<Batch>, fate: Fate)
    ensures Suffered(a + b, fate) <==> Suffered(a, fate) || Suffered(b, fate)
  {
    if Suffered(a, fate) {
      var j :| 0 <= j < |a| && a[j].fate == fate;
      assert (a + b)[j].fate == fate;
    }
    if Suffered(b, fate) {
      var j :| 0 <= j < |b| && b[j].fate == fate;
      assert (a + b)[|a| + j].fate == fate;
    }
  }

  lemma StepSettles(l: Loop, input: Input, l': Loop, fate: Fate)
    requires Step(l, input, l')
    ensures Suffered(l'.settled, fate) <==> Suffered(l.settled, fate) || Settles(l, input, fate)
  {
    hide IsSnapshot, Process, Enumerates, Restore;
    match input {
      case Deliver(ok) =>
        var b := Batch(l.taken.value, if ok then Published else Dropped);
        SufferedConcat(l.settled, [b], fate);
        assert Suffered([b], b.fate) by { assert [b][0].fate == b.fate; }
      case Restart(_) =>
        SufferedConcat(l.settled, Lose(Pending(l)), fate);
        if Pending(l) != [] {
          assert Lose(Pending(l))[0].fate == Lost;
        }
      case _ =>
    }
  }

  /** Over every run: some batch has been lost exactly if some crash found a batch that was persisted
      but not published, on the channel or off it; some batch has been dropped exactly if some
      publication failed; and some batch has been published exactly if some publication succeeded. */
  lemma {:induction false} FatesOverRuns(ls: seq<Loop>, inputs: seq<Input>, cfg: CustomConfig, i: nat, fate: Fate)
    requires IsRun(ls, inputs, cfg) && i < |ls|
    ensures Suffered(ls[i].settled, fate) <==> exists k :: 0 <= k < i && Settles(ls[k], inputs[k], fate)
  {
    hide Step, Settles, Suffered;
    if i == 0 {
      NothingSettledYet(cfg, fate);
    } else {
      FatesOverRuns(ls, inputs, cfg, i - 1, fate);
      StepSettles(ls[i - 1], inputs[i - 1], ls[i], fate);
    }
  }

  lemma NothingSettledYet(cfg: CustomConfig, fate: Fate)
    ensures !Suffered(Start(cfg).settled, fate)
  {
  }

  /** The events that have been published, in the order of their publication. */
  function PublishedEvents(settled: seq<Batch>): seq<Event> {
    if settled == [] then []
    else
      var last := settled[|settled| - 1];
      PublishedEvents(settled[..|settled| - 1]) + if last.fate == Published then last.events else []
  }

  lemma PublishedSnoc(init: seq<Batch>, b: Batch)
    ensures PublishedEvents(init + [b]) == PublishedEvents(init) + if b.fate == Published then b.events else []
  {
    assert (init + [b])[..|init|] == init;
  }

  lemma LoseSnoc(pending: seq<seq<Event>>, events: seq<Event>)
    ensures Lose(pending + [events]) == Lose(pending) + [Batch(events, Lost)]
  {
  }

  lemma {:induction false} LosingPublishesNothing(settled: seq<Batch>, pending: seq<seq<Event>>)
    ensures PublishedEvents(settled + Lose(pending)) == PublishedEvents(settled)
  {
    hide PublishedEvents;
    if pending == [] {
      assert settled + Lose(pending) == settled;
    } else {
      hide Lose;
      var init, events := pending[..|pending| - 1], pending[|pending| - 1];
      LosingPublishesNothing(settled, init);
      LosesOneMore(settled, init, events);
      assert pending == init + [events];
    }
  }

  lemma LosesOneMore(settled: seq<Batch>, init: seq<seq<Event>>, events: seq<Event>)
    ensures PublishedEvents(settled + Lose(init + [events])) == PublishedEvents(settled + Lose(init))
  {
    hide PublishedEvents, Lose;
    var b := Batch(events, Lost);
    LoseSnoc(init, events);
    Associates(settled, Lose(init), [b]);
    PublishedSnoc(settled + Lose(init), b);
    assert PublishedEvents(settled + Lose(init)) + [] == PublishedEvents(settled + Lose(init));
  }

  function PersistedEvents(settled: seq<Batch>): seq<Event> {
    Flatten(EventsOf(settled))
  }

  lemma PersistedSnoc(init: seq<Batch>, b: Batch)
    ensures PersistedEvents(init + [b]) == PersistedEvents(init) + b.events
  {
    assert EventsOf(init + [b]) == EventsOf(init) + [b.events];
    FlattenSnoc(EventsOf(init), b.events);
  }

  lemma {:induction false} FlattenConcat(a: seq<seq<Event>>, b: seq<seq<Event>>)
    ensures Flatten(a + b) == Flatten(a) + Flatten(b)
  {
    if b == [] {
      assert a + b == a;
    } else {
      FlattenConcat(a, b[..|b| - 1]);
      assert (a + b)[..|a + b| - 1] == a + b[..|b| - 1];
    }
  }

  lemma {:induction false} AllPublishedInOrder(settled: seq<Batch>)
    ensures !Suffered(settled, Dropped) && !Suffered(settled, Lost) ==>
            PublishedEvents(settled) == PersistedEvents(settled)
  {
    if settled != [] {
      var init, last := settled[..|settled| - 1], settled[|settled| - 1];
      assert settled == init + [last];
      hide Suffered;
      AllPublishedInOrder(init);
      PersistedSnoc(init, last);
      SufferedConcat(init, [last], Dropped);
      SufferedConcat(init, [last], Lost);
      SingleFate(last);
    }
  }

  lemma SingleFate(b: Batch)
    ensures forall fate :: Suffered([b], fate) <==> b.fate == fate
  {
    assert [b][0].fate == b.fate;
  }

  ghost predicate NothingFails(ls: seq<Loop>, inputs: seq<Input>, i: nat)
    requires i <= |ls| && i <= |inputs|
  {
    forall k :: 0 <= k < i ==> !Settles(ls[k], inputs[k], Dropped) && !Settles(ls[k], inputs[k], Lost)
  }

  /** If no publication fails and no crash finds a batch on its way, then whatever was persisted has
      been published in that order, but for what is still on its way. A clean stop leaves nothing. */
  lemma PublishedUnlessSomethingFails(ls: seq<Loop>, inputs: seq<Input>, cfg: CustomConfig, i: nat)
    requires IsRun(ls, inputs, cfg) && i < |ls| && NothingFails(ls, inputs, i)
    ensures Persisted(ls[i]) == PublishedEvents(ls[i].settled) + Flatten(Pending(ls[i]))
    ensures ls[i].stage.Stopped? ==> Persisted(ls[i]) == PublishedEvents(ls[i].settled)
  {
    hide Step, Settles, Suffered, Flatten, Pending;
    FatesOverRuns(ls, inputs, cfg, i, Dropped);
    FatesOverRuns(ls, inputs, cfg, i, Lost);
    AllPublishedInOrder(ls[i].settled);
    FlattenConcat(EventsOf(ls[i].settled), Pending(ls[i]));
    if ls[i].stage.Stopped? {
      NothingPendingOnceStopped(ls, inputs, cfg, i);
      FlattenNone();
    }
  }

  lemma FlattenNone()
    ensures Flatten([]) == []
  {
  }

  /** The channel never holds more than a hundred batches. */
  lemma {:induction false} ChannelIsBounded(ls: seq<Loop>, inputs: seq<Input>, cfg: CustomConfig, i: nat)
    requires IsRun(ls, inputs, cfg) && i < |ls|
    ensures |ls[i].channel| <= 100
  {
    hide IsSnapshot, Process, Enumerates, Restore;
    if i > 0 {
      ChannelIsBounded(ls, inputs, cfg, i - 1);
      assert Step(ls[i - 1], inputs[i - 1], ls[i]);
    }
  }

  lemma NothingPendingOnceStopped(ls: seq<Loop>, inputs: seq<Input>, cfg: CustomConfig, i: nat)
    requires IsRun(ls, inputs, cfg) && i < |ls|
    ensures ls[i].stage.Stopped? ==> Pending(ls[i]) == []
  {
    InvariantOverRuns(ls, inputs, cfg, i);
  }

  // ---- From the raising of an event to its publication ----

  /** Events that have been raised but not yet persisted. */
  function Unsaved(l: Loop): seq<Event> {
    if l.stage.Persisting? then l.stage.events else []
  }

  function RaisedBy(l: Loop, input: Input): seq<Event> {
    if ActionOf(input).Some? then Process(l, ActionOf(input).value).events else []
  }

  /** All events that the inventory has raised in the first `i` steps of a run. */
  function Raised(ls: seq<Loop>, inputs: seq<Input>, i: nat): seq<Event>
    requires i <= |ls| && i <= |inputs|
  {
    if i == 0 then [] else Raised(ls, inputs, i - 1) + RaisedBy(ls[i - 1], inputs[i - 1])
  }

  /** A crash between processing and persisting: the events vanish without a trace, and so does their
      effect on the inventory. */
  predicate Vanishes(l: Loop, input: Input) {
    input.Restart? && Unsaved(l) != []
  }

  lemma StepRaises(l: Loop, input: Input, l': Loop)
    requires Step(l, input, l')
    ensures if input.Restart? then Persisted(l') + Unsaved(l') == Persisted(l) && RaisedBy(l, input) == []
            else Persisted(l') + Unsaved(l') == Persisted(l) + Unsaved(l) + RaisedBy(l, input)
  {
    if ActionOf(input).Some? {
      ActionRaises(l, input, l');
      hide Step, Persisted, Unsaved, RaisedBy;
      AddsNothing(Persisted(l));
    } else {
      HistoryGrows(l, input, l');
      PersistMoves(l, input, l');
      hide Step, History, Persisted, Unsaved, NewlyPersisted;
      AddsNothing(Persisted(l));
      AddsNothing(Persisted(l) + Unsaved(l));
    }
  }

  lemma AddsNothing<T>(s: seq<T>)
    ensures s + [] == s
  {
  }

  lemma PersistMoves(l: Loop, input: Input, l': Loop)
    requires Step(l, input, l') && ActionOf(input).None?
    ensures if input.Restart? || NewlyPersisted(l, input) != [] then Unsaved(l') == [] else Unsaved(l') == Unsaved(l)
    ensures NewlyPersisted(l, input) != [] ==> Unsaved(l) == l.stage.events
  {
    hide IsSnapshot, Process, Enumerates, Restore;
  }

  lemma ActionRaises(l: Loop, input: Input, l': Loop)
    requires Step(l, input, l') && ActionOf(input).Some?
    ensures Unsaved(l) == [] && Unsaved(l') == RaisedBy(l, input) && Persisted(l') == Persisted(l)
  {
    HistoryGrows(l, input, l');
    SilentActions(l, input);
    hide Process, IsSnapshot, Enumerates, History, Persisted;
  }

  lemma SilentActions(l: Loop, input: Input)
    ensures input.AgeOutTick? || input.ConfigArrives? ==> RaisedBy(l, input) == []
  {
    if input.AgeOutTick? {
      AgeOutSilent(l.live, input.order, input.nowNanos);
    } else if input.ConfigArrives? {
      RunOfConfig(l.live, input.cfg);
    }
    hide Run;
  }

  /** The raised events that are still accounted for. */
  function Kept(l: Loop): seq<Event> {
    Persisted(l) + Unsaved(l)
  }

  lemma StepKeeps(l: Loop, input: Input, l': Loop)
    requires Step(l, input, l')
    ensures if Vanishes(l, input) then |Kept(l')| < |Kept(l)| && RaisedBy(l, input) == []
            else Kept(l') == Kept(l) + RaisedBy(l, input)
  {
    StepRaises(l, input, l');
    hide Step, Persisted, Unsaved, RaisedBy;
    AddsNothing(Persisted(l));
  }

  ghost predicate NoneVanish(ls: seq<Loop>, inputs: seq<Input>, i: nat)
    requires i <= |ls| && i <= |inputs|
  {
    forall k :: 0 <= k < i ==> !Vanishes(ls[k], inputs[k])
  }

  lemma NoneVanishStep(ls: seq<Loop>, inputs: seq<Input>, i: nat)
    requires 0 < i <= |ls| && i <= |inputs|
    ensures NoneVanish(ls, inputs, i) <==> NoneVanish(ls, inputs, i - 1) && !Vanishes(ls[i - 1], inputs[i - 1])
  {
    hide Vanishes;
  }

  lemma {:induction false} RaisedOverRuns(ls: seq<Loop>, inputs: seq<Input>, cfg: CustomConfig, i: nat)
    requires IsRun(ls, inputs, cfg) && i < |ls|
    ensures |Raised(ls, inputs, i)| >= |Kept(ls[i])|
    ensures |Raised(ls, inputs, i)| == |Kept(ls[i])| <==> NoneVanish(ls, inputs, i)
    ensures NoneVanish(ls, inputs, i) ==> Raised(ls, inputs, i) == Kept(ls[i])
  {
    if i == 0 {
      NothingPersistedYet(cfg);
    } else {
      var l, input := ls[i - 1], inputs[i - 1];
      RaisedOverRuns(ls, inputs, cfg, i - 1);
      assert Step(l, input, ls[i]);
      assert Raised(ls, inputs, i) == Raised(ls, inputs, i - 1) + RaisedBy(l, input);
      hide Step, IsRun, Raised, RaisedBy, Vanishes, NoneVanish, Kept;
      NoneVanishStep(ls, inputs, i);
      StepKeeps(l, input, ls[i]);
    }
  }

  lemma NothingPersistedYet(cfg: CustomConfig)
    ensures Persisted(Start(cfg)) == [] && Unsaved(Start(cfg)) == []
  {
  }

  /** Over every run, all events that the inventory raised are persisted, or about to be, if and only if
      no crash came between processing and persisting. */
  lemma PersistedIffNothingVanishes(ls: seq<Loop>, inputs: seq<Input>, cfg: CustomConfig, i: nat)
    requires IsRun(ls, inputs, cfg) && i < |ls|
    ensures Raised(ls, inputs, i) == Persisted(ls[i]) + Unsaved(ls[i]) <==>
            forall k :: 0 <= k < i ==> !Vanishes(ls[k], inputs[k])
  {
    assert Kept(ls[i]) == Persisted(ls[i]) + Unsaved(ls[i]);
    hide Persisted, Raised, Unsaved, Vanishes, IsRun, Kept;
    RaisedOverRuns(ls, inputs, cfg, i);
  }

  /** The steps that lose events, at whatever point on their way. */
  ghost predicate LosesEvents(l: Loop, input: Input) {
    Vanishes(l, input) || Settles(l, input, Dropped) || Settles(l, input, Lost)
  }

  /** No batch is empty: only reports and sweeps that raise events get as far as sending. */
  ghost predicate BatchesCarryEvents(l: Loop) {
    forall j :: 0 <= j < |History(l)| ==> History(l)[j] != []
  }

  lemma NoBatchYet(cfg: CustomConfig)
    ensures BatchesCarryEvents(Start(cfg))
  {
  }

  lemma {:induction false} NoEmptyBatches(ls: seq<Loop>, inputs: seq<Input>, cfg: CustomConfig, i: nat)
    requires IsRun(ls, inputs, cfg) && i < |ls|
    ensures BatchesCarryEvents(ls[i])
  {
    hide Step, BatchesCarryEvents;
    if i == 0 {
      NoBatchYet(cfg);
    } else {
      NoEmptyBatches(ls, inputs, cfg, i - 1);
      StepCarries(ls[i - 1], inputs[i - 1], ls[i]);
    }
  }

  lemma StepCarries(l: Loop, input: Input, l': Loop)
    requires Step(l, input, l') && BatchesCarryEvents(l)
    ensures BatchesCarryEvents(l')
  {
    HistoryGrows(l, input, l');
    hide Step, History;
  }

  /** Every batch that is not published makes the published events fall short of the persisted ones. */
  lemma {:induction false} UnpublishedFallShort(settled: seq<Batch>)
    requires forall j :: 0 <= j < |settled| ==> settled[j].events != []
    ensures |PublishedEvents(settled)| <= |PersistedEvents(settled)|
    ensures Suffered(settled, Dropped) || Suffered(settled, Lost) ==>
              |PublishedEvents(settled)| < |PersistedEvents(settled)|
  {
    if settled != [] {
      var init, last := settled[..|settled| - 1], settled[|settled| - 1];
      assert settled == init + [last];
      hide Suffered;
      UnpublishedFallShort(init);
      PersistedSnoc(init, last);
      SufferedConcat(init, [last], Dropped);
      SufferedConcat(init, [last], Lost);
      SingleFate(last);
    } else {
      assert EventsOf(settled) == [];
    }
  }

  lemma SettledCarryEvents(l: Loop, j: nat)
    requires BatchesCarryEvents(l) && j < |l.settled|
    ensures l.settled[j].events != []
  {
    assert History(l)[j] == l.settled[j].events;
  }

  /** Over every run: all events that the inventory ever raised have been published, in that order, but
      for those still on their way, if and only if no crash came between raising and publishing events
      and no publication failed. Nothing else loses events. */
  lemma PublishedIffNothingLost(ls: seq<Loop>, inputs: seq<Input>, cfg: CustomConfig, i: nat)
    requires IsRun(ls, inputs, cfg) && i < |ls|
    ensures Raised(ls, inputs, i) == PublishedEvents(ls[i].settled) + Flatten(Pending(ls[i])) + Unsaved(ls[i]) <==>
            forall k :: 0 <= k < i ==> !LosesEvents(ls[k], inputs[k])
  {
    var l := ls[i];
    RaisedOverRuns(ls, inputs, cfg, i);
    NoEmptyBatches(ls, inputs, cfg, i);
    forall j | 0 <= j < |l.settled|
      ensures l.settled[j].events != []
    {
      SettledCarryEvents(l, j);
    }
    hide Step, Settles, Suffered, Flatten, Pending, Vanishes, Raised, Unsaved, PublishedEvents, BatchesCarryEvents,
      IsRun;
    FatesOverRuns(ls, inputs, cfg, i, Dropped);
    FatesOverRuns(ls, inputs, cfg, i, Lost);
    AllPublishedInOrder(l.settled);
    UnpublishedFallShort(l.settled);
    FlattenConcat(EventsOf(l.settled), Pending(l));
  }

  // ---- What a subscriber sees ----

  /** The arrivals and departures of one tag. */
  function Turns(evs: seq<Event>, e: string): nat
    decreases evs
  {
    if evs == [] then 0 else (if evs[0].epc == e && !evs[0].MovedEvent? then 1 else 0) + Turns(evs[1..], e)
  }

  /** The arrivals and departures of one tag that were not published. */
  function MissedTurns(settled: seq<Batch>, e: string): nat {
    if settled == [] then 0
    else
      var last := settled[|settled| - 1];
      MissedTurns(settled[..|settled| - 1], e) + if last.fate == Published then 0 else Turns(last.events, e)
  }

  /** Whenever a batch about the tag was published, an even number of its arrivals and departures had
      been missed before. */
  ghost predicate EvenlyMissed(settled: seq<Batch>, e: string) {
    forall j :: 0 <= j < |settled| && settled[j].fate == Published && Of(settled[j].events, e) != [] ==>
      MissedTurns(settled[..j], e) % 2 == 0
  }

  lemma EvenlyMissedSnoc(init: seq<Batch>, last: Batch, e: string)
    ensures EvenlyMissed(init + [last], e) <==>
            EvenlyMissed(init, e)
            && (last.fate == Published && Of(last.events, e) != [] ==> MissedTurns(init, e) % 2 == 0)
  {
    hide MissedTurns, Of;
    var all, n := init + [last], |init|;
    assert all[n] == last && all[..n] == init;
    assert forall j :: 0 <= j < n ==> all[j] == init[j] && all[..j] == init[..j];
  }

  /** A tag changes between away and present with each of its turns. */
  lemma {:induction false} TurnsDecide(p: Phase, evs: seq<Event>, e: string)
    requires Follow(p, evs, e) != Broken
    ensures Follow(p, evs, e) == p <==> Turns(evs, e) % 2 == 0
    decreases evs
  {
    if p == Broken {
      BrokenStays(evs, e);
    } else if evs != [] {
      if Next(p, evs[0], e) == Broken {
        BrokenStays(evs[1..], e);
      }
      TurnsDecide(Next(p, evs[0], e), evs[1..], e);
    }
  }

  lemma {:induction false} NoneOfTag(p: Phase, evs: seq<Event>, e: string)
    requires Of(evs, e) == []
    ensures Follow(p, evs, e) == p
    decreases evs
  {
    if evs != [] {
      NoneOfTag(p, evs[1..], e);
    }
  }

  /** Events that make sense in one phase make none in the other. */
  lemma {:induction false} OutOfStep(p: Phase, q: Phase, evs: seq<Event>, e: string)
    requires p != Broken && q != Broken && p != q && Of(evs, e) != []
    requires Follow(p, evs, e) != Broken
    ensures Follow(q, evs, e) == Broken
    decreases evs
  {
    if evs[0].epc == e {
      BrokenStays(evs[1..], e);
    } else {
      OutOfStep(p, q, evs[1..], e);
    }
  }

  /** A subscriber that sees only the published events keeps up with the tag exactly as long as it
      misses its turns in pairs; and then it is right about the tag's presence exactly when the
      number it missed is even. */
  lemma {:induction false} SubscriberKeepsUp(settled: seq<Batch>, e: string)
    requires Follow(Away, PersistedEvents(settled), e) != Broken
    ensures var seen := Follow(Away, PublishedEvents(settled), e);
            && (seen != Broken <==> EvenlyMissed(settled, e))
            && (seen != Broken ==>
                  (seen == Follow(Away, PersistedEvents(settled), e) <==> MissedTurns(settled, e) % 2 == 0))
  {
    if settled != [] {
      var init, last := settled[..|settled| - 1], settled[|settled| - 1];
      assert settled == init + [last];
      EvenlyMissedSnoc(init, last, e);
      PersistedSnoc(init, last);
      hide PersistedEvents, EvenlyMissed, Follow, Of, Turns;
      FollowConcat(Away, PersistedEvents(init), last.events, e);
      var truth := Follow(Away, PersistedEvents(init), e);
      if truth == Broken {
        BrokenStays(last.events, e);
      }
      SubscriberKeepsUp(init, e);
      SubscriberStep(init, last, e);
    } else {
      assert EventsOf(settled) == [];
    }
  }

  lemma SubscriberStep(init: seq<Batch>, last: Batch, e: string)
    requires Follow(Away, PersistedEvents(init), e) != Broken
    requires Follow(Follow(Away, PersistedEvents(init), e), last.events, e) != Broken
    requires var seen := Follow(Away, PublishedEvents(init), e);
             && (seen != Broken <==> EvenlyMissed(init, e))
             && (seen != Broken ==>
                   (seen == Follow(Away, PersistedEvents(init), e) <==> MissedTurns(init, e) % 2 == 0))
    ensures var seen := Follow(Away, PublishedEvents(init + [last]), e);
            var truth := Follow(Follow(Away, PersistedEvents(init), e), last.events, e);
            && (seen != Broken <==>
                EvenlyMissed(init, e)
                && (last.fate == Published && Of(last.events, e) != [] ==> MissedTurns(init, e) % 2 == 0))
            && (seen != Broken ==> (seen == truth <==> MissedTurns(init + [last], e) % 2 == 0))
  {
    PublishedSnoc(init, last);
    MissedSnoc(init, last, e);
    var truth, seen := Follow(Away, PersistedEvents(init), e), Follow(Away, PublishedEvents(init), e);
    hide PersistedEvents, PublishedEvents, EvenlyMissed, Follow, Of, Turns, MissedTurns;
    if last.fate == Published {
      FollowConcat(Away, PublishedEvents(init), last.events, e);
      SeesBatch(seen, truth, last.events, e);
    } else {
      assert PublishedEvents(init) + [] == PublishedEvents(init);
      TurnsDecide(truth, last.events, e);
      TwoPhases(truth, Follow(truth, last.events, e), seen);
    }
  }

  lemma MissedSnoc(init: seq<Batch>, last: Batch, e: string)
    ensures MissedTurns(init + [last], e) ==
            MissedTurns(init, e) + if last.fate == Published then 0 else Turns(last.events, e)
  {
    assert (init + [last])[..|init|] == init;
  }

  /** Two that differ from a third, and none of them broken, are the same. */
  lemma TwoPhases(p: Phase, q: Phase, r: Phase)
    ensures p != Broken && q != Broken && r != Broken && p != q && p != r ==> q == r
  {
  }

  /** A subscriber that sees a batch stays right, or if it was wrong learns so from any event of the tag. */
  lemma SeesBatch(seen: Phase, truth: Phase, evs: seq<Event>, e: string)
    requires truth != Broken && Follow(truth, evs, e) != Broken
    ensures Follow(seen, evs, e) != Broken <==> seen != Broken && (Of(evs, e) == [] || seen == truth)
    ensures Follow(seen, evs, e) != Broken ==> (Follow(seen, evs, e) == Follow(truth, evs, e) <==> seen == truth)
  {
    hide Follow, Of;
    if seen == Broken {
      BrokenStays(evs, e);
    } else if Of(evs, e) == [] {
      NoneOfTag(seen, evs, e);
      NoneOfTag(truth, evs, e);
    } else if seen != truth {
      OutOfStep(truth, seen, evs, e);
    }
  }

  /** Over every run of the loop, with all its crashes and failing publications: the published events
      of a tag are a prefix of (Arrived Moved* Departed)* if and only if no batch about the tag was
      published after an odd number of its arrivals and departures had been dropped or lost. */
  lemma PublishedStreamIff(ls: seq<Loop>, inputs: seq<Input>, cfg: CustomConfig, i: nat, e: string)
    requires IsRun(ls, inputs, cfg) && i < |ls|
    ensures Visits(Of(PublishedEvents(ls[i].settled), e)) <==> EvenlyMissed(ls[i].settled, e)
  {
    hide Step, Visits, Of, EvenlyMissed, PublishedEvents, Follow, Flatten, Pending;
    var settled := ls[i].settled;
    LoopSafety(ls, inputs, cfg, i, e);
    FollowDecidesLanguage(Persisted(ls[i]), e);
    FlattenConcat(EventsOf(settled), Pending(ls[i]));
    FollowConcat(Away, PersistedEvents(settled), Flatten(Pending(ls[i])), e);
    if Follow(Away, PersistedEvents(settled), e) == Broken {
      BrokenStays(Flatten(Pending(ls[i])), e);
    }
    SubscriberKeepsUp(settled, e);
    FollowDecidesLanguage(PublishedEvents(settled), e);
  }

  // ---- A crash that a subscriber notices ----

  /** A time at which a tag last read at the epoch is overdue. */
  function Silence(cfg: CustomConfig): nat {
    (cfg.appSettings.departedThresholdSeconds * 1000 + 1) * 1_000_000
  }

  /** A tag arrives; the process dies between persisting that and sending it; the tag departs. */
  function LossyInputs(cfg: CustomConfig): seq<Input> {
    [ReportArrives([LOCATED_READ], "reader", 0), Persist, Restart(cfg)]
    + [DepartedTick(Silence(cfg), [LOCATED_READ.EPC()])]
    + [Persist, Send, Take, Deliver(true)]
  }

  function ArrivedTag(cfg: CustomConfig): Settled {
    ReadTag(NewTag(LOCATED_READ.EPC()), LOCATED_READ, NewReportInfo("reader", 0), NewProcessorConfig(cfg))
  }

  function RestoredTag(cfg: CustomConfig): TagRecord {
    FromStatic(Static(ArrivedTag(cfg).tag, NewProcessorConfig(cfg)))
  }

  function Only(tag: TagRecord, config: ProcessorConfig): InventoryState {
    InventoryState(map[tag.epc := tag], config)
  }

  lemma SnapshotOfOne(tag: TagRecord, config: ProcessorConfig)
    ensures IsSnapshot([Static(tag, config)], Only(tag, config))
  {
    var snap := [Static(tag, config)];
    assert snap[0].epc == tag.epc;
  }

  lemma RestoreOfOne(saved: StaticTag, cfg: CustomConfig)
    ensures Restore([saved], cfg) == Only(FromStatic(saved), NewProcessorConfig(cfg))
  {
    assert [saved][..0] == [];
    assert RestoreTags([saved]) == RestoreTags([])[saved.epc := FromStatic(saved)];
  }

  lemma RunOfOne(s: InventoryState, op: Op)
    ensures Run(s, [op]) == Apply(s, op)
  {
    assert [op][..0] == [];
  }

  lemma ArrivalInLossyRun(cfg: CustomConfig)
    ensures var arrived := ArrivedTag(cfg);
            && Process(Start(cfg), Report([LOCATED_READ], "reader", 0))
               == Outcome(Only(arrived.tag, NewProcessorConfig(cfg)), arrived.events)
            && arrived.tag.epc == LOCATED_READ.EPC() && arrived.tag.state == Present && arrived.tag.lastRead == 0
            && arrived.events != []
  {
    var config, info := NewProcessorConfig(cfg), NewReportInfo("reader", 0);
    assert NewestSeen([LOCATED_READ]) == 0;
    assert ReportOps(config, [LOCATED_READ], info) == [ReadOp(LOCATED_READ, info)];
    RunOfOne(Restore([], cfg), ReadOp(LOCATED_READ, info));
    ReadKeepsIdentity(NewTag(LOCATED_READ.EPC()), LOCATED_READ, info, config);
  }

  lemma DepartureInLossyRun(cfg: CustomConfig, tag: TagRecord, s: InventoryState)
    requires s == Only(tag, NewProcessorConfig(cfg))
    requires tag.state == Present && tag.lastRead == 0 && tag.epc == LOCATED_READ.EPC()
    ensures Run(s, DepartOps([LOCATED_READ.EPC()], Silence(cfg)))
            == Outcome(Only(Depart(tag, Silence(cfg)), s.config), [DepartureOf(tag, s.config, Silence(cfg))])
    ensures Enumerates([LOCATED_READ.EPC()], s.tags.Keys)
  {
    hide TagReportData.EPC, ProcessorConfig.Alias;
    var e, now := LOCATED_READ.EPC(), Silence(cfg);
    OverdueMeans(tag, s.config, now);
    assert DepartOps([e], now) == [DepartOp(e, now)];
    RunOfOne(s, DepartOp(e, now));
  }

  /** With an idle consumer, four steps take waiting events to the subscribers. */
  lemma PassOn(ls: seq<Loop>, inputs: seq<Input>, cfg: CustomConfig) returns (ls': seq<Loop>)
    requires IsRun(ls, inputs, cfg)
    requires var l := ls[|ls| - 1];
             l.stage.Persisting? && l.stage.events != [] && l.taken.None? && l.channel == []
    ensures IsRun(ls', inputs + [Persist, Send, Take, Deliver(true)], cfg)
    ensures var l := ls[|ls| - 1];
            ls'[|ls'| - 1] ==
            l.(file := l.cached, stage := Waiting, settled := l.settled + [Batch(l.stage.events, Published)])
  {
    var l := ls[|ls| - 1];
    var evs := l.stage.events;
    var l1 := l.(file := l.cached, stage := Sending(evs));
    var l2 := l1.(stage := Waiting, channel := [evs]);
    var l3 := l2.(taken := Some(evs), channel := []);
    var l4 := l3.(taken := None, settled := l3.settled + [Batch(evs, Published)]);
    assert Step(l, Persist, l1) && Step(l1, Send, l2) && Step(l2, Take, l3) && Step(l3, Deliver(true), l4);
    hide Step, IsRun;
    RunExtends(ls, inputs, cfg, Persist, l1);
    RunExtends(ls + [l1], inputs + [Persist], cfg, Send, l2);
    RunExtends(ls + [l1] + [l2], inputs + [Persist] + [Send], cfg, Take, l3);
    RunExtends(ls + [l1] + [l2] + [l3], inputs + [Persist] + [Send] + [Take], cfg, Deliver(true), l4);
    assert inputs + [Persist] + [Send] + [Take] + [Deliver(true)] == inputs + [Persist, Send, Take, Deliver(true)];
    ls' := ls + [l1] + [l2] + [l3] + [l4];
  }

  /** A crash just before sending: the events are lost, but the file has their effect. */
  lemma CrashBeforeSending(cfg: CustomConfig, snap: seq<StaticTag>) returns (ls: seq<Loop>)
    requires var out := Process(Start(cfg), Report([LOCATED_READ], "reader", 0));
             out.events != [] && IsSnapshot(snap, out.state)
    ensures IsRun(ls, [ReportArrives([LOCATED_READ], "reader", 0), Persist, Restart(cfg)], cfg)
    ensures var out := Process(Start(cfg), Report([LOCATED_READ], "reader", 0));
            ls[|ls| - 1] == Loop(Restore(snap, cfg), snap, snap, Waiting, [Batch(out.events, Lost)], None, [])
  {
    hide IsSnapshot, Process, Restore;
    var l0, report := Start(cfg), ReportArrives([LOCATED_READ], "reader", 0);
    var out := Process(l0, Report([LOCATED_READ], "reader", 0));
    var l1 := l0.(live := out.state, cached := snap, stage := Persisting(out.events));
    var l2 := l1.(file := snap, stage := Sending(out.events));
    var l3 := Loop(Restore(snap, cfg), snap, snap, Waiting, [Batch(out.events, Lost)], None, []);
    assert Lose(Pending(l2)) == [Batch(out.events, Lost)];
    assert Step(l0, report, l1) && Step(l1, Persist, l2) && Step(l2, Restart(cfg), l3);
    assert IsRun([l0], [], cfg);
    hide Step, IsRun;
    RunExtends([l0], [], cfg, report, l1);
    RunExtends([l0] + [l1], [] + [report], cfg, Persist, l2);
    RunExtends([l0] + [l1] + [l2], [] + [report] + [Persist], cfg, Restart(cfg), l3);
    assert [] + [report] + [Persist] + [Restart(cfg)] == [report, Persist, Restart(cfg)];
    ls := [l0] + [l1] + [l2] + [l3];
  }

  /** A tag that is departed by a sweep, and the events of which reach the subscribers. */
  lemma SweepAndPassOn(ls: seq<Loop>, inputs: seq<Input>, cfg: CustomConfig, tag: TagRecord) returns (ls': seq<Loop>)
    requires IsRun(ls, inputs, cfg)
    requires tag.state == Present && tag.lastRead == 0 && tag.epc == LOCATED_READ.EPC()
    requires var l := ls[|ls| - 1];
             l.stage.Waiting? && l.live == Only(tag, NewProcessorConfig(cfg)) && l.taken.None? && l.channel == []
    ensures IsRun(ls', inputs + [DepartedTick(Silence(cfg), [tag.epc])] + [Persist, Send, Take, Deliver(true)], cfg)
    ensures ls'[|ls'| - 1].settled == ls[|ls| - 1].settled
              + [Batch([DepartureOf(tag, NewProcessorConfig(cfg), Silence(cfg))], Published)]
  {
    var l, config, now := ls[|ls| - 1], NewProcessorConfig(cfg), Silence(cfg);
    DepartureInLossyRun(cfg, tag, l.live);
    var gone, ev := Depart(tag, now), DepartureOf(tag, config, now);
    SnapshotOfOne(gone, config);
    hide IsRun, TagReportData.EPC, Enumerates, IsSnapshot, Run, DepartOps, Silence, Depart, DepartureOf, Static;
    var l' := l.(live := Only(gone, config), cached := [Static(gone, config)], stage := Persisting([ev]));
    assert Step(l, DepartedTick(now, [tag.epc]), l');
    hide Step;
    RunExtends(ls, inputs, cfg, DepartedTick(now, [tag.epc]), l');
    ls' := PassOn(ls + [l'], inputs + [DepartedTick(now, [tag.epc])], cfg);
  }

  /** The tag's arrival is lost, but the restored inventory has it. */
  lemma ArrivalLost(cfg: CustomConfig) returns (ls: seq<Loop>)
    ensures IsRun(ls, [ReportArrives([LOCATED_READ], "reader", 0), Persist, Restart(cfg)], cfg)
    ensures var l := ls[|ls| - 1];
            && l.stage.Waiting? && l.live == Only(RestoredTag(cfg), NewProcessorConfig(cfg))
            && l.taken.None? && l.channel == []
            && l.settled == [Batch(ArrivedTag(cfg).events, Lost)]
    ensures var tag := RestoredTag(cfg); tag.state == Present && tag.lastRead == 0 && tag.epc == LOCATED_READ.EPC()
  {
    ArrivalInLossyRun(cfg);
    var snap := [Static(ArrivedTag(cfg).tag, NewProcessorConfig(cfg))];
    RestoreOfOne(snap[0], cfg);
    hide ReadTag, ArrivedTag, TagReportData.EPC, ProcessorConfig.Alias, IsSnapshot, Restore, Process, Start,
      NewProcessorConfig, IsRun, StaticStats;
    SnapshotOfOne(ArrivedTag(cfg).tag, NewProcessorConfig(cfg));
    ls := CrashBeforeSending(cfg, snap);
  }

  /** The restored inventory has the tag, so it never arrives again, and a subscriber hears of its
      departure without ever having heard of its arrival. */
  lemma CrashLosesArrival(cfg: CustomConfig) returns (ls: seq<Loop>)
    ensures IsRun(ls, LossyInputs(cfg), cfg)
    ensures var settled := ls[|ls| - 1].settled;
            && Suffered(settled, Lost)
            && |PublishedEvents(settled)| == 1 && PublishedEvents(settled)[0].DepartedEvent?
            && !Visits(Of(PublishedEvents(settled), LOCATED_READ.EPC()))
  {
    hide ArrivedTag, RestoredTag, TagReportData.EPC, ProcessorConfig.Alias, Silence, NewProcessorConfig, Visits, Of,
      PublishedEvents, Suffered, IsRun;
    var tag := RestoredTag(cfg);
    ls := ArrivalLost(cfg);
    ls := SweepAndPassOn(ls, [ReportArrives([LOCATED_READ], "reader", 0), Persist, Restart(cfg)], cfg, tag);
    var first := Batch(ArrivedTag(cfg).events, Lost);
    var second := Batch([DepartureOf(tag, NewProcessorConfig(cfg), Silence(cfg))], Published);
    OnlyTheSecond(first, second, tag.epc);
    assert [first] + [second] == [first, second];
  }

  lemma OnlyTheSecond(first: Batch, second: Batch, e: string)
    requires first.fate == Lost && second.fate == Published
    requires |second.events| == 1 && second.events[0].DepartedEvent? && second.events[0].epc == e
    ensures Suffered([first, second], Lost)
    ensures PublishedEvents([first, second]) == second.events
    ensures !Visits(Of(PublishedEvents([first, second]), e))
  {
    var settled := [first, second];
    assert settled[0].fate == Lost;
    assert settled[..1] == [first] && [first][..0] == [];
    assert PublishedEvents([first]) == PublishedEvents([]) + [];
    assert Of(second.events, e) == second.events;
  }

  lemma RaisedByTwo(ls: seq<Loop>, inputs: seq<Input>)
    requires |ls| == 3 && |inputs| == 2
    ensures Raised(ls, inputs, 2) == RaisedBy(ls[0], inputs[0]) + RaisedBy(ls[1], inputs[1])
  {
    hide RaisedBy;
    assert Raised(ls, inputs, 1) == Raised(ls, inputs, 0) + RaisedBy(ls[0], inputs[0]);
  }

  lemma VanishingSteps(cfg: CustomConfig) returns (l: Loop)
    ensures var report := ReportArrives([LOCATED_READ], "reader", 0);
            && Step(Start(cfg), report, l) && RaisedBy(Start(cfg), report) != []
            && Step(l, Restart(cfg), Start(cfg))
  {
    ArrivalInLossyRun(cfg);
    var arrived, config := ArrivedTag(cfg), NewProcessorConfig(cfg);
    SnapshotOfOne(arrived.tag, config);
    hide ReadTag, ArrivedTag, TagReportData.EPC, ProcessorConfig.Alias, IsSnapshot, Process, NewProcessorConfig, Static;
    l := Start(cfg).(live := Only(arrived.tag, config), cached := [Static(arrived.tag, config)],
                     stage := Persisting(arrived.events));
    ReportStep(Start(cfg), [LOCATED_READ], "reader", 0, l);
    assert Lose(Pending(l)) == [];
    RestartStep(l, cfg, Start(cfg));
  }

  /** A crash before the arrival is even persisted: no trace of it is left, neither of the events nor of
      the tag, and no batch counts as lost. */
  lemma CrashBeforePersisting(cfg: CustomConfig) returns (ls: seq<Loop>)
    ensures var inputs := [ReportArrives([LOCATED_READ], "reader", 0), Restart(cfg)];
            && IsRun(ls, inputs, cfg) && |ls| == 3
            && Raised(ls, inputs, 2) != [] && Persisted(ls[2]) == [] && Unsaved(ls[2]) == []
            && ls[2].settled == [] && ls[2].live.tags == map[]
  {
    var l := VanishingSteps(cfg);
    var start, report := Start(cfg), ReportArrives([LOCATED_READ], "reader", 0);
    assert IsRun([start], [], cfg);
    NothingPersistedYet(cfg);
    hide Step, IsRun, Raised, RaisedBy, Persisted, Unsaved;
    RunExtends([start], [], cfg, report, l);
    RunExtends([start] + [l], [] + [report], cfg, Restart(cfg), start);
    assert [] + [report] + [Restart(cfg)] == [report, Restart(cfg)];
    ls := [start] + [l] + [start];
    RaisedByTwo(ls, [report, Restart(cfg)]);
  }
}
