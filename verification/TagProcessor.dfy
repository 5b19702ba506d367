/** The tag processor: the live inventory, updated in place by reports, sweeps and configuration. */
module TagProcessors {
  import opened Basics
  import opened Locations
  import opened TagReports
  import opened Inventory
  import opened Tags

  class TagProcessor {
    var inventory: map<string, Tag>
    var config: ProcessorConfig
    /** What the inventory holds, as values. */
    ghost var tags: map<string, TagRecord>
    ghost var Repr: set<object>

    ghost predicate Valid()
      reads this, Repr
      ensures Valid() ==> this in Repr && tags.Keys == inventory.Keys
    {
      && this in Repr
      && tags.Keys == inventory.Keys
      && Owned() && Mirrored() && Unshared()
    }

    ghost predicate Owned()
      reads this, Repr
    {
      forall e :: e in inventory ==>
        inventory[e] in Repr && inventory[e].Repr <= Repr && this !in inventory[e].Repr && inventory[e].epc == e
    }

    ghost predicate Mirrored()
      requires tags.Keys == inventory.Keys && Owned()
      reads this, Repr
    {
      forall e :: e in inventory ==> inventory[e].Valid() && inventory[e].View() == tags[e]
    }

    /** No two tags have an object in common. */
    ghost predicate Unshared()
      requires Owned()
      reads this, Repr
    {
      forall e, f :: e in inventory && f in inventory && e != f ==> inventory[e].Repr !! inventory[f].Repr
    }

    ghost function View(): InventoryState
      reads this
    {
      InventoryState(tags, config)
    }

    method UpdateConfig(cfg: CustomConfig)
      requires Valid()
      modifies `config
      ensures Valid()
      ensures Outcome(View(), []) == Apply(old(View()), ConfigOp(cfg))
    {
      config := NewProcessorConfig(cfg);
    }

    lemma Entry(epc: string)
      requires Valid() && epc in inventory
      ensures epc in tags
      ensures inventory[epc] in Repr && inventory[epc].Repr <= Repr && this !in inventory[epc].Repr
      ensures inventory[epc] in inventory[epc].Repr
      ensures inventory[epc].Valid() && inventory[epc].View() == tags[epc] && tags[epc].epc == epc
    {
    }

    /** The objects below the tag stored for an EPC. */
    ghost function Part(epc: string): set<object>
      reads this, if epc in inventory then {inventory[epc]} else {}
    {
      if epc in inventory then inventory[epc].Repr else {}
    }

    static twostate predicate Untouched(objects: set<object>)
      reads objects
    {
      unchanged(objects)
    }

    /** Changing or adding one tag leaves the others alone. */
    twostate lemma OthersKept(epc: string)
      requires old(Valid()) && epc in inventory && inventory == old(inventory)[epc := inventory[epc]]
      requires Untouched(old(Repr) - old(Part(epc)) - {this})
      requires inventory[epc].Repr * old(Repr) <= old(Part(epc))
      ensures forall e :: e in inventory && e != epc ==> Kept(epc, e)
    {
      hide Tag.Valid, Tag.View;
      forall e | e in inventory && e != epc
        ensures Kept(epc, e)
      {
        assert old(inventory[e].Repr) !! old(Part(epc));
        assert unchanged(inventory[e].Repr);
      }
    }

    /** Another tag still has the objects and the value it had, and shares nothing with `tag`. */
    twostate predicate Kept(epc: string, e: string)
      reads *
    {
      && epc in inventory && e in inventory && e in old(inventory) && e in old(tags)
      && inventory[e].Repr == old(inventory[e].Repr) && inventory[e].Repr !! inventory[epc].Repr
      && inventory[e].Valid() && inventory[e].View() == old(tags[e])
    }

    /** One tag is replaced by a valid one, with all that belongs to it, and the others are kept. */
    twostate predicate OneChanged(epc: string)
      reads *
    {
      && old(Valid()) && epc in inventory && inventory == old(inventory)[epc := inventory[epc]]
      && (forall e :: e in inventory && e != epc ==> Kept(epc, e))
      && var tag := inventory[epc];
      && tag.Valid() && tag in tag.Repr && this !in tag.Repr && tag.epc == epc
      && Repr == old(Repr) + tag.Repr && tags == old(tags)[epc := tag.View()]
    }

    twostate lemma StillOwned(epc: string)
      requires OneChanged(epc)
      ensures Owned() && tags.Keys == inventory.Keys
    {
      hide Tag.Valid, Tag.View;
      forall e | e in inventory
        ensures inventory[e] in Repr && inventory[e].Repr <= Repr && this !in inventory[e].Repr && inventory[e].epc == e
      {
        if e != epc {
          assert Kept(epc, e) && inventory[e] == old(inventory[e]);
        }
      }
    }

    twostate lemma StillMirrored(epc: string)
      requires OneChanged(epc) && Owned() && tags.Keys == inventory.Keys
      ensures Mirrored()
    {
      hide Tag.Valid, Tag.View, Valid;
      forall e | e in inventory
        ensures inventory[e].Valid() && inventory[e].View() == tags[e]
      {
        assert e != epc ==> Kept(epc, e);
      }
    }

    twostate lemma StillUnshared(epc: string)
      requires OneChanged(epc) && Owned()
      ensures Unshared()
    {
      hide Tag.Valid, Tag.View;
      forall e, f | e in inventory && f in inventory && e != f
        ensures inventory[e].Repr !! inventory[f].Repr
      {
        assert e != epc ==> Kept(epc, e);
        assert f != epc ==> Kept(epc, f);
      }
    }

    twostate lemma StillValid(epc: string)
      requires OneChanged(epc)
      ensures Valid()
    {
      StillOwned(epc);
      StillMirrored(epc);
      StillUnshared(epc);
      hide Tag.Valid, Tag.View, Owned, Mirrored, Unshared;
    }

    /** Puts a tag under its EPC, replacing one that may be there. */
    method Store(epc: string, tag: Tag)
      requires Valid() && tag.Valid() && tag.epc == epc && tag.Repr !! Repr
      modifies `inventory, `tags, `Repr
      ensures Valid() && Repr == old(Repr) + tag.Repr
      ensures inventory == old(inventory)[epc := tag]
      ensures tags == old(tags)[epc := tag.View()]
    {
      hide Tag.Valid, Tag.View;
      inventory := inventory[epc := tag];
      tags := tags[epc := tag.View()];
      Repr := Repr + tag.Repr;
      OthersKept(epc);
      StillValid(epc);
    }

    method UpdateTag(epc: string, rt: TagReportData, info: ReportInfo)
      requires Valid() && epc in inventory && epc in tags
      modifies inventory[epc].Repr, `tags, `Repr
      ensures Valid() && fresh(Repr - old(Repr)) && inventory == old(inventory) && inventory[epc] in Repr
      ensures tags == old(tags)[epc := ApplyRead(old(tags[epc]), rt, info, config.profile)]
    {
      hide Tag.Valid, Tag.View, ApplyRead, Mirrored, Unshared;
      Entry(epc);
      var tag := inventory[epc];
      tag.ApplyRead(rt, info, config.profile);
      tags := tags[epc := tag.View()];
      Repr := Repr + tag.Repr;
      OthersKept(epc);
      StillValid(epc);
    }

    method MarkPresent(epc: string)
      requires Valid() && epc in inventory && epc in tags
      modifies inventory[epc], `tags
      ensures Valid()
      ensures tags == old(tags)[epc := old(tags[epc]).(state := Present, lastArrived := old(tags[epc]).lastRead)]
    {
      hide Tag.Valid;
      var tag := inventory[epc];
      tag.SetState(Present);
      tags := tags[epc := tag.View()];
      OthersKept(epc);
      StillValid(epc);
    }

    method FindOrCreate(epc: string) returns (tag: Tag)
      requires Valid()
      modifies `inventory, `tags, `Repr
      ensures Valid() && fresh(Repr - old(Repr))
      ensures epc in inventory && epc in tags && tag == inventory[epc]
      ensures tags == old(tags)[epc := TagBefore(old(View()), epc)]
      ensures tag in Repr && tag.Repr <= Repr && this !in tag.Repr && tag in tag.Repr
      ensures tag.View() == tags[epc] && tag.epc == epc
      ensures old(Repr) <= Repr
    {
      hide Tag.Valid;
      if epc !in inventory {
        tag := new Tag(epc);
        Store(epc, tag);
      }
      tag := inventory[epc];
      Entry(epc);
    }

    /** The block deferred until a read has been processed: the new state and the event it calls for. */
    method Announce(epc: string, prevState: TagState, prevLoc: Location) returns (event: Option<Event>)
      requires Valid() && epc in inventory && epc in tags
      modifies inventory[epc], `tags
      ensures Valid()
      ensures var settled := Settle(old(tags[epc]), prevState, prevLoc, config);
              tags == old(tags)[epc := settled.tag] && ListOf(event) == settled.events
    {
      hide Valid, ProcessorConfig.Alias;
      Entry(epc);
      var tag := inventory[epc];
      if prevState != Present {
        MarkPresent(epc);
        Entry(epc);
        return Some(ArrivedEvent(tag.epc, tag.tid, tag.lastRead, config.Alias(tag.location)));
      }
      if prevLoc.IsEmpty() || prevLoc == tag.location {
        return None;
      }
      var prevAlias, curAlias := config.Alias(prevLoc), config.Alias(tag.location);
      if prevAlias == curAlias {
        return None;
      }
      return Some(MovedEvent(tag.epc, tag.tid, tag.lastRead, prevAlias, curAlias));
    }

    /** Finds or creates the tag of a read and lets it learn from the read. */
    method AbsorbRead(epc: string, rt: TagReportData, info: ReportInfo) returns (prevState: TagState, prevLoc: Location)
      requires Valid()
      modifies Repr
      ensures Valid() && fresh(Repr - old(Repr)) && config == old(config)
      ensures epc in inventory && epc in tags && inventory[epc] in Repr
      ensures var prev := TagBefore(old(View()), epc);
              && prevState == prev.state && prevLoc == prev.location
              && tags == old(tags)[epc := ApplyRead(prev, rt, info, config.profile)]
    {
      hide Valid, ApplyRead, TagBefore;
      var tag := FindOrCreate(epc);
      prevState, prevLoc := tag.state, tag.location;
      UpdateTag(epc, rt, info);
    }

    /** One tag report: updates or creates the tag, then raises the event its change calls for. */
    method ProcessData(rt: TagReportData, info: ReportInfo) returns (event: Option<Event>)
      requires Valid()
      modifies Repr
      ensures Valid() && fresh(Repr - old(Repr))
      ensures Outcome(View(), ListOf(event)) == Apply(old(View()), ReadOp(rt, info))
    {
      hide Valid, ApplyRead, Settle, TagBefore, TagReportData.EPC;
      var epc := rt.EPC();
      var prevState, prevLoc := AbsorbRead(epc, rt, info);
      event := Announce(epc, prevState, prevLoc);
    }

    method ProcessReport(report: seq<TagReportData>, info: ReportInfo)
      returns (events: seq<Event>, snapshot: seq<StaticTag>)
      requires Valid()
      modifies Repr
      ensures Valid() && fresh(Repr - old(Repr))
      ensures Outcome(View(), events) == Run(old(View()), ReportOps(old(config), report, info))
      ensures IsSnapshot(snapshot, View())
    {
      hide Valid, Apply, Run, Adjust;
      var adjusted := AdjustedInfo(report, info);
      events := ProcessAll(report, adjusted);
      snapshot := Snapshot();
    }

    /** The offset of a report's timestamps from the time its message was first seen. */
    method AdjustedInfo(report: seq<TagReportData>, info: ReportInfo) returns (adjusted: ReportInfo)
      ensures adjusted == Adjust(config, report, info)
    {
      adjusted := info;
      if config.adjustLastReadOnByOrigin {
        var lastSeenMicros := NewestSeenIn(report);
        if lastSeenMicros > 0 {
          adjusted := info.(offsetMicros := TruncDiv(info.originNanos, 1000) - lastSeenMicros);
        }
      }
    }

    method ProcessAll(report: seq<TagReportData>, info: ReportInfo) returns (events: seq<Event>)
      requires Valid()
      modifies Repr
      ensures Valid() && fresh(Repr - old(Repr))
      ensures Outcome(View(), events) == Run(old(View()), ReadOps(report, info))
    {
      hide Valid, Apply;
      ghost var ops := ReadOps(report, info);
      events := [];
      for i := 0 to |report|
        invariant Valid() && fresh(Repr - old(Repr))
        invariant Outcome(View(), events) == Run(old(View()), ops[..i])
      {
        hide Run;
        var event := ProcessData(report[i], info);
        RunSnoc(old(View()), ops[..i], ops[i]);
        assert ops[..i + 1] == ops[..i] + [ops[i]];
        events := events + ListOf(event);
      }
      assert ops[..|report|] == ops;
    }

    method VisitForDeparture(epc: string, nowNanos: int) returns (event: Option<Event>)
      requires Valid() && epc in inventory
      modifies Repr
      ensures Valid() && Repr == old(Repr) && inventory == old(inventory)
      ensures Outcome(View(), ListOf(event)) == Apply(old(View()), DepartOp(epc, nowNanos))
    {
      hide Valid;
      Entry(epc);
      var tag := inventory[epc];
      var nowMs := TruncDiv(nowNanos, 1_000_000);
      var minTimestamp := TruncDiv(nowNanos - config.departedThresholdSeconds * 1_000_000_000, 1_000_000);
      if tag.state != Present || tag.lastRead >= minTimestamp {
        return None;
      }
      event := Some(DepartedEvent(tag.epc, tag.tid, nowMs, tag.lastRead, config.Alias(tag.location)));
      MarkDeparted(epc, nowMs);
    }

    /** Read statistics are dropped, so that a tag that arrives again starts afresh. */
    method MarkDeparted(epc: string, nowMs: int)
      requires Valid() && epc in inventory && epc in tags
      modifies inventory[epc], `tags
      ensures Valid()
      ensures tags == old(tags)[epc := old(tags[epc]).(state := Departed, lastDeparted := nowMs, stats := map[])]
    {
      hide Tag.Valid;
      var tag := inventory[epc];
      tag.SetStateAt(Departed, nowMs);
      tag.ResetStats();
      tags := tags[epc := tag.View()];
      OthersKept(epc);
      StillValid(epc);
    }

    /** Visits the tags in an arbitrary order, which `order` records. */
    method AggregateDeparted(nowNanos: int)
      returns (events: seq<Event>, snapshot: Option<seq<StaticTag>>, ghost order: seq<string>)
      requires Valid()
      modifies Repr
      ensures Valid() && Repr == old(Repr)
      ensures Enumerates(order, old(tags).Keys)
      ensures Outcome(View(), events) == Run(old(View()), DepartOps(order, nowNanos))
      ensures if events == [] then snapshot == None else snapshot.Some? && IsSnapshot(snapshot.value, View())
    {
      hide Valid, Apply;
      events, order := [], [];
      var remaining := inventory.Keys;
      while remaining != {}
        invariant Valid() && Repr == old(Repr) && inventory == old(inventory)
        invariant remaining <= inventory.Keys
        invariant Enumerates(order, inventory.Keys - remaining)
        invariant Outcome(View(), events) == Run(old(View()), DepartOps(order, nowNanos))
      {
        hide Enumerates, Run, DepartOps, AgeOps;
        var epc :| epc in remaining;
        EnumeratesSnoc(order, inventory.Keys, remaining, epc);
        remaining := remaining - {epc};
        var event := VisitForDeparture(epc, nowNanos);
        SweepSnoc(order, epc, nowNanos);
        RunSnoc(old(View()), DepartOps(order, nowNanos), DepartOp(epc, nowNanos));
        events, order := events + ListOf(event), order + [epc];
      }
      if events == [] {
        return events, None, order;
      }
      var snap := Snapshot();
      snapshot := Some(snap);
    }

    method VisitForAgeOut(epc: string, nowNanos: int) returns (removed: bool)
      requires Valid() && epc in inventory
      modifies `inventory, `tags
      ensures Valid() && tags == old(tags) - if removed then {epc} else {}
      ensures Outcome(View(), []) == Apply(old(View()), AgeOp(epc, nowNanos))
      ensures |tags| == |old(tags)| - if removed then 1 else 0
    {
      hide Valid;
      Entry(epc);
      var tag := inventory[epc];
      var minTimestamp := (nowNanos - config.ageOutHours * 3_600_000_000_000) / 1_000_000;
      removed := tag.state == Departed && tag.lastRead < minTimestamp;
      if removed {
        Remove(epc);
      }
    }

    method Remove(epc: string)
      requires Valid() && epc in inventory
      modifies `inventory, `tags
      ensures Valid() && tags == old(tags) - {epc} && |tags| == |old(tags)| - 1
    {
      hide Valid;
      SizeWithout(tags, epc);
      inventory, tags := inventory - {epc}, tags - {epc};
      RestKept(epc);
    }

    /** Taking one tag away keeps the others. */
    twostate lemma RestKept(epc: string)
      requires old(Valid()) && Repr == old(Repr) && unchanged(Repr - {this})
      requires inventory == old(inventory) - {epc} && tags == old(tags) - {epc}
      ensures Valid()
    {
      hide Tag.Valid, Tag.View;
      forall e | e in inventory
        ensures inventory[e].Valid() && inventory[e].View() == tags[e]
      {
        assert old(inventory[e].Valid() && inventory[e].View() == tags[e]);
      }
    }

    method AgeOut(nowNanos: int)
      returns (numRemoved: nat, snapshot: Option<seq<StaticTag>>, ghost order: seq<string>)
      requires Valid()
      modifies Repr
      ensures Valid() && Repr == old(Repr)
      ensures Enumerates(order, old(tags).Keys)
      ensures Outcome(View(), []) == Run(old(View()), AgeOps(order, nowNanos))
      ensures numRemoved == |old(tags)| - |tags|
      ensures if numRemoved == 0 then snapshot == None else snapshot.Some? && IsSnapshot(snapshot.value, View())
    {
      hide Valid, Run, AgeOps, Enumerates, IsSnapshot;
      numRemoved, order := RemoveAged(nowNanos);
      if numRemoved == 0 {
        return 0, None, order;
      }
      var snap := Snapshot();
      snapshot := Some(snap);
    }

    method RemoveAged(nowNanos: int) returns (numRemoved: nat, ghost order: seq<string>)
      requires Valid()
      modifies `inventory, `tags
      ensures Valid() && Enumerates(order, old(tags).Keys)
      ensures Outcome(View(), []) == Run(old(View()), AgeOps(order, nowNanos))
      ensures numRemoved == |old(tags)| - |tags|
    {
      hide Valid, Apply;
      numRemoved, order := 0, [];
      var remaining := inventory.Keys;
      while remaining != {}
        invariant Valid()
        invariant remaining <= tags.Keys && remaining <= old(tags).Keys
        invariant Enumerates(order, old(tags).Keys - remaining)
        invariant Outcome(View(), []) == Run(old(View()), AgeOps(order, nowNanos))
        invariant numRemoved == |old(tags)| - |tags|
      {
        hide Enumerates, Run, AgeOps;
        var epc :| epc in remaining;
        EnumeratesSnoc(order, old(tags).Keys, remaining, epc);
        remaining := remaining - {epc};
        ghost var mid := View();
        var removed := VisitForAgeOut(epc, nowNanos);
        AgeSweepOn(old(View()), order, epc, nowNanos, mid, View());
        order := order + [epc];
        if removed {
          numRemoved := numRemoved + 1;
        }
      }
    }

    /** The whole inventory as plain values, in an arbitrary order. */
    method Snapshot() returns (res: seq<StaticTag>)
      requires Valid()
      ensures IsSnapshot(res, View())
    {
      hide Valid, StaticStats, ProcessorConfig.Alias;
      res := [];
      var remaining := inventory.Keys;
      while remaining != {}
        invariant remaining <= inventory.Keys
        invariant IsSnapshot(res, InventoryState(tags - remaining, config))
      {
        var epc :| epc in remaining;
        Entry(epc);
        var tag := inventory[epc];
        var stats := tag.SnapshotStats();
        var next := StaticTag(tag.epc, tag.tid, tag.location, config.Alias(tag.location), tag.lastRead, tag.lastArrived,
                              tag.lastDeparted, tag.state, stats);
        SnapshotSnoc(res, InventoryState(tags - remaining, config), next);
        res := res + [next];
        remaining := remaining - {epc};
      }
    }

    /** Pre-loads the tags of a snapshot; of two with the same EPC the later one wins. */
    constructor (cfg: CustomConfig, saved: seq<StaticTag>)
      ensures Valid() && fresh(Repr)
      ensures View() == Restore(saved, cfg)
    {
      inventory, tags := map[], map[];
      config := NewProcessorConfig(cfg);
      Repr := {this};
      new;
      for i := 0 to |saved|
        invariant Valid() && fresh(Repr)
        invariant View() == Restore(saved[..i], cfg)
      {
        hide Valid, FromStatic;
        var tag := new Tag.Restored(saved[i]);
        Store(saved[i].epc, tag);
        assert saved[..i + 1][..i] == saved[..i];
      }
      assert saved[..|saved|] == saved;
    }
  }

  lemma SizeWithout(m: map<string, TagRecord>, e: string)
    requires e in m
    ensures |m - {e}| == |m| - 1
  {
    assert m.Keys == (m - {e}).Keys + {e};
  }

  /** Adding an unlisted tag to a snapshot. */
  lemma SnapshotSnoc(snap: seq<StaticTag>, s: InventoryState, t: StaticTag)
    requires IsSnapshot(snap, s) && t.epc !in s.tags
    ensures forall tag: TagRecord :: tag.epc == t.epc && t == Static(tag, s.config) ==>
              IsSnapshot(snap + [t], s.(tags := s.tags[t.epc := tag]))
  {
    forall tag: TagRecord | tag.epc == t.epc && t == Static(tag, s.config)
      ensures IsSnapshot(snap + [t], s.(tags := s.tags[t.epc := tag]))
    {
      var more := snap + [t];
      forall e | e in s.tags || e == t.epc
        ensures Lists(more, e)
      {
        if e == t.epc {
          assert more[|snap|].epc == e;
        } else {
          var i :| 0 <= i < |snap| && snap[i].epc == e;
          assert more[i].epc == e;
        }
      }
    }
  }

  method NewestSeenIn(report: seq<TagReportData>) returns (lastSeenMicros: nat)
    ensures lastSeenMicros == NewestSeen(report)
  {
    lastSeenMicros := 0;
    for i := 0 to |report|
      invariant lastSeenMicros == NewestSeen(report[..i])
    {
      assert report[..i + 1][..i] == report[..i];
      var seen := report[i].Get(LastSeenUTC);
      if seen.Some? && seen.value > lastSeenMicros {
        lastSeenMicros := seen.value;
      }
    }
    assert report[..|report|] == report;
  }

  function ListOf(event: Option<Event>): seq<Event> {
    if event.Some? then [event.value] else []
  }
}
