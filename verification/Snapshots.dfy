/** Saving an inventory as a list of plain tags and building it up again. */
module Snapshots {
  import opened Locations
  import opened CircularBuffers
  import opened Inventory
  import opened TagHistories
  import opened ReadLaws

  lemma ListsSnoc(init: seq<StaticTag>, t: StaticTag, e: string)
    ensures Lists(init + [t], e) <==> Lists(init, e) || t.epc == e
  {
    var snap := init + [t];
    if Lists(init, e) {
      var i :| 0 <= i < |init| && init[i].epc == e;
      assert snap[i].epc == e;
    }
    if t.epc == e {
      assert snap[|init|].epc == e;
    }
  }

  lemma {:induction false} RestoredTags(snap: seq<StaticTag>)
    requires DistinctTags(snap)
    ensures forall i :: 0 <= i < |snap| ==>
              snap[i].epc in RestoreTags(snap) && RestoreTags(snap)[snap[i].epc] == FromStatic(snap[i])
    ensures forall e :: e in RestoreTags(snap) <==> Lists(snap, e)
  {
    hide FromStatic;
    if snap != [] {
      var n := |snap| - 1;
      var init := snap[..n];
      RestoredTags(init);
      assert forall i :: 0 <= i < n ==> snap[i] == init[i];
      assert snap == init + [snap[n]];
      forall e
        ensures e in RestoreTags(snap) <==> Lists(snap, e)
      {
        hide Lists;
        ListsSnoc(init, snap[n], e);
      }
    }
  }

  /** A restored window holds the single value whose mean was saved. */
  lemma StatsRoundTrip(saved: map<string, StaticTagStats>)
    ensures StaticStats(map loc | loc in saved :: Loaded(saved[loc])) == saved
  {
    var stats := map loc | loc in saved :: Loaded(saved[loc]);
    forall loc | loc in saved
      ensures StaticTagStats(stats[loc].lastRead, MeanOf(stats[loc].recent)) == saved[loc]
    {
      assert Sum([saved[loc].meanRSSI]) == saved[loc].meanRSSI + Sum([]);
    }
  }

  /** A restored tag reads exactly as it was saved, but for its alias under the present configuration. */
  lemma TagRoundTrip(t: StaticTag, config: ProcessorConfig)
    ensures Static(FromStatic(t), config) == t.(locationAlias := config.Alias(t.location))
  {
    StatsRoundTrip(t.statsMap);
    hide StaticStats;
  }

  /** `snap` lists every tag of `s` once, in everything but the alias. */
  ghost predicate Mirrors(snap: seq<StaticTag>, s: InventoryState) {
    && DistinctTags(snap)
    && (forall i :: 0 <= i < |snap| ==>
          snap[i].epc in s.tags
          && snap[i].(locationAlias := "") == Static(s.tags[snap[i].epc], s.config).(locationAlias := ""))
    && (forall e :: e in s.tags ==> Lists(snap, e))
  }

  lemma SnapshotMirrors(snap: seq<StaticTag>, s: InventoryState)
    requires IsSnapshot(snap, s)
    ensures Mirrors(snap, s)
  {
    hide Static;
  }

  /** Whatever snapshot one restores from, the result mirrors it. */
  lemma RestoredMirrors(snap: seq<StaticTag>, cfg: CustomConfig)
    requires DistinctTags(snap)
    ensures Mirrors(snap, Restore(snap, cfg)) && KeyedByEPC(Restore(snap, cfg))
  {
    RestoredTags(snap);
    var s := Restore(snap, cfg);
    forall i | 0 <= i < |snap|
      ensures snap[i].(locationAlias := "") == Static(s.tags[snap[i].epc], s.config).(locationAlias := "")
    {
      TagRoundTrip(snap[i], s.config);
    }
    forall e | e in s.tags
      ensures s.tags[e].epc == e
    {
      var i :| 0 <= i < |snap| && snap[i].epc == e;
    }
  }

  /** Restoring from a snapshot and taking a snapshot again, under the same aliases, gives the same
      list up to order: all tags, states, times, locations, last reads and means survive. */
  lemma RestoreRoundTrip(snap: seq<StaticTag>, s: InventoryState, cfg: CustomConfig)
    requires IsSnapshot(snap, s) && NewProcessorConfig(cfg).aliases == s.config.aliases
    ensures IsSnapshot(snap, Restore(snap, cfg))
    ensures Restore(snap, cfg).tags.Keys == s.tags.Keys
  {
    RestoredTags(snap);
    var r := Restore(snap, cfg);
    forall i | 0 <= i < |snap|
      ensures snap[i] == Static(r.tags[snap[i].epc], r.config)
    {
      TagRoundTrip(snap[i], r.config);
      assert r.config.Alias(snap[i].location) == s.config.Alias(snap[i].location);
    }
  }

  /** The order in which a snapshot lists the tags makes no difference to what is restored. */
  lemma RestoreIgnoresOrder(snap: seq<StaticTag>, snap': seq<StaticTag>, s: InventoryState, cfg: CustomConfig)
    requires IsSnapshot(snap, s) && IsSnapshot(snap', s)
    ensures Restore(snap, cfg) == Restore(snap', cfg)
  {
    RestoredTags(snap);
    RestoredTags(snap');
    hide Static, FromStatic;
    var m, m' := RestoreTags(snap), RestoreTags(snap');
    assert forall e :: e in s.tags <==> Lists(snap, e);
    assert forall e :: e in s.tags <==> Lists(snap', e);
    forall e | e in s.tags
      ensures m[e] == m'[e]
    {
      var i :| 0 <= i < |snap| && snap[i].epc == e;
      var j :| 0 <= j < |snap'| && snap'[j].epc == e;
    }
    assert m == m';
  }

  lemma RestoredTagKept(tag: TagRecord, t: StaticTag, config: ProcessorConfig, loc: Location, lo: real, hi: real)
    requires WellKept(tag) && t.(locationAlias := "") == Static(tag, config).(locationAlias := "")
    ensures WellKept(FromStatic(t))
    ensures InBand(GetStats(tag.stats, loc.String()).recent, lo, hi) ==>
              InBand(GetStats(FromStatic(t).stats, loc.String()).recent, lo, hi)
  {
    var saved := Static(tag, config);
    assert t.(locationAlias := "").statsMap == saved.statsMap;
    assert FromStatic(t) == FromStatic(saved);
    var recent := GetStats(tag.stats, loc.String()).recent;
    if recent != [] && InBand(recent, lo, hi) {
      MeanBetween(recent, lo, hi);
    }
  }

  lemma RestoredOne(snap: seq<StaticTag>, s: InventoryState, e: string, loc: Location, lo: real, hi: real)
    requires Mirrors(snap, s) && AllWellKept(s) && e in RestoreTags(snap)
    ensures e in s.tags && WellKept(RestoreTags(snap)[e])
    ensures InBand(GetStats(s.tags[e].stats, loc.String()).recent, lo, hi) ==>
              InBand(GetStats(RestoreTags(snap)[e].stats, loc.String()).recent, lo, hi)
  {
    RestoredTags(snap);
    hide Static, FromStatic, WellKept, InBand, Location.String, GetStats, RestoreTags;
    assert Lists(snap, e);
    var i :| 0 <= i < |snap| && snap[i].epc == e;
    RestoredTagKept(s.tags[e], snap[i], s.config, loc, lo, hi);
  }

  /** Restoring keeps what is true of clocks and of RSSI values, so the laws over runs that start
      from a kept inventory go on after a restart. */
  lemma RestoredKeptInBand(
      snap: seq<StaticTag>, s: InventoryState, config: ProcessorConfig, epc: string, lo: real, hi: real)
    requires Mirrors(snap, s) && KeptInBand(s, epc, lo, hi)
    ensures KeptInBand(InventoryState(RestoreTags(snap), config), epc, lo, hi)
  {
    RestoredTags(snap);
    hide Static, FromStatic, WellKept, Location.String, RestoreTags;
    var r := InventoryState(RestoreTags(snap), config);
    forall e | e in r.tags
      ensures WellKept(r.tags[e])
    {
      RestoredOne(snap, s, e, NOWHERE, lo, hi);
    }
    forall loc
      ensures InBand(Recent(r, epc, loc), lo, hi)
    {
      assert InBand(Recent(s, epc, loc), lo, hi);
      if epc in r.tags {
        RestoredOne(snap, s, epc, loc, lo, hi);
      }
    }
  }

  /** What a snapshot says of a tag, and what restoring it makes of that: everything but the windows is
      kept, and these hold the one value that was their mean. */
  lemma SnapshotShows(snap: seq<StaticTag>, s: InventoryState, cfg: CustomConfig, i: nat, loc: string)
    requires IsSnapshot(snap, s) && i < |snap|
    ensures snap[i].epc in s.tags && snap[i].epc in Restore(snap, cfg).tags
    ensures var t, tag, again := snap[i], s.tags[snap[i].epc], Restore(snap, cfg).tags[snap[i].epc];
            && t.tid == tag.tid == again.tid && t.location == tag.location == again.location
            && t.state == tag.state == again.state && t.lastRead == tag.lastRead == again.lastRead
            && t.lastArrived == tag.lastArrived == again.lastArrived
            && t.lastDeparted == tag.lastDeparted == again.lastDeparted
            && Names(s.config.aliases, t.location, t.locationAlias)
            && (loc in t.statsMap <==> loc in tag.stats && tag.stats[loc].recent != [])
            && (loc in again.stats <==> loc in t.statsMap)
            && (loc in t.statsMap ==>
                  && t.statsMap[loc].lastRead == tag.stats[loc].lastRead == again.stats[loc].lastRead
                  && t.statsMap[loc].meanRSSI == MeanOf(tag.stats[loc].recent)
                  && again.stats[loc].recent == [t.statsMap[loc].meanRSSI])
  {
    RestoredTags(snap);
    AliasNames(s.config, snap[i].location, snap[i].locationAlias);
    hide RestoreTags, MeanOf, Names, ProcessorConfig.Alias, Lists, DistinctTags;
  }
}
