/** The mutable tag and its per-location statistics. */
module Tags {
  import opened Basics
  import opened Locations
  import opened CircularBuffers
  import opened Inventory
  import opened MobilityProfiles
  import opened TagReports

  class TagStats {
    var lastRead: int
    const rssiDbm: CircularBuffer

    ghost function Repr(): set<object> {
      {this, rssiDbm, rssiDbm.values}
    }

    ghost predicate Valid()
      reads this, rssiDbm, rssiDbm.values
    {
      rssiDbm.Valid() && rssiDbm.values.Length == TAG_STATS_WINDOW_SIZE
    }

    ghost function View(): StatsRecord
      reads this, rssiDbm
    {
      StatsRecord(lastRead, rssiDbm.Contents)
    }

    constructor ()
      ensures Valid() && fresh(Repr())
      ensures View() == StatsRecord(0, [])
    {
      lastRead := 0;
      rssiDbm := new CircularBuffer(TAG_STATS_WINDOW_SIZE);
    }

    method UpdateRSSI(rssi: real)
      requires Valid()
      modifies rssiDbm, rssiDbm.values
      ensures Valid()
      ensures View() == Record(old(View()), Some(rssi), None)
    {
      rssiDbm.AddValue(rssi);
    }

    method UpdateLastRead(lastRead: int)
      requires Valid()
      modifies this
      ensures Valid()
      ensures View() == Record(old(View()), None, Some(lastRead))
    {
      // skip times at or before the latest one
      if lastRead <= this.lastRead {
        return;
      }
      this.lastRead := lastRead;
    }

    /** One read: its RSSI, if it has one, then its time, if it has one. */
    method Update(rssi: Option<real>, stamp: Option<int>)
      requires Valid()
      modifies this, rssiDbm, rssiDbm.values
      ensures Valid()
      ensures View() == Record(old(View()), rssi, stamp)
    {
      if rssi.Some? {
        UpdateRSSI(rssi.value);
      }
      if stamp.Some? {
        UpdateLastRead(stamp.value);
      }
    }

    /** Restores the last read time and one value standing for the whole window. */
    method Load(saved: StaticTagStats)
      requires Valid()
      modifies this, rssiDbm, rssiDbm.values
      ensures Valid()
      ensures View() == StatsRecord(saved.lastRead, Slide(old(View()).recent, TAG_STATS_WINDOW_SIZE, saved.meanRSSI))
    {
      lastRead := saved.lastRead;
      rssiDbm.AddValue(saved.meanRSSI);
    }

    function RSSICount(): nat
      requires Valid()
      reads this, rssiDbm, rssiDbm.values
      ensures RSSICount() == |View().recent|
    {
      rssiDbm.Len()
    }
  }

  class Tag {
    const epc: string
    var tid: string
    var location: Location
    var lastRead: int
    var lastDeparted: int
    var lastArrived: int
    var state: TagState
    var statsMap: map<string, TagStats>
    ghost var Repr: set<object>

    /** What statsMap holds, as values. */
    ghost var stats: map<string, StatsRecord>
    /** The one location that each object below this tag belongs to. */
    ghost var owner: map<object, string>

    /** No two locations share statistics, or any part of them. */
    ghost predicate Valid()
      reads this, Repr
      ensures Valid() ==> this in Repr && stats.Keys == statsMap.Keys
    {
      && this in Repr && this !in owner
      && stats.Keys == statsMap.Keys
      && (forall k :: k in statsMap ==> Owns(statsMap[k], k))
      && (forall k :: k in statsMap ==> statsMap[k].Valid() && statsMap[k].View() == stats[k])
    }

    ghost predicate Owns(s: TagStats, location: string)
      reads this
    {
      && s in Repr && s.rssiDbm in Repr && s.rssiDbm.values in Repr
      && s in owner && owner[s] == location
      && s.rssiDbm in owner && owner[s.rssiDbm] == location
      && s.rssiDbm.values in owner && owner[s.rssiDbm.values] == location
    }

    ghost function View(): TagRecord
      reads this
    {
      TagRecord(epc, tid, location, lastRead, lastDeparted, lastArrived, state, stats)
    }

    constructor (epc: string)
      ensures Valid() && fresh(Repr)
      ensures View() == NewTag(epc)
    {
      this.epc, tid, location := epc, "", NOWHERE;
      lastRead, lastDeparted, lastArrived, state := 0, 0, 0, Unknown;
      statsMap, stats := map[], map[];
      owner, Repr := map[], {this};
    }

    /** `asTagPtr`: a tag rebuilt from its snapshot. */
    constructor Restored(s: StaticTag)
      ensures Valid() && fresh(Repr)
      ensures View() == FromStatic(s)
    {
      epc, tid, location := s.epc, s.tid, s.location;
      lastRead, lastDeparted, lastArrived, state := s.lastRead, s.lastDeparted, s.lastArrived, s.state;
      statsMap, stats := map[], map[];
      owner, Repr := map[], {this};
      new;
      RestoreAll(s.statsMap);
    }

    method RestoreAll(saved: map<string, StaticTagStats>)
      requires Valid() && stats == map[]
      modifies Repr
      ensures Valid() && fresh(Repr - old(Repr))
      ensures View() == old(View()).(stats := map loc | loc in saved :: Loaded(saved[loc]))
    {
      hide Valid, Loaded;
      var remaining := saved.Keys;
      while remaining != {}
        invariant Valid() && fresh(Repr - old(Repr))
        invariant remaining <= saved.Keys
        invariant View() == old(View()).(stats := stats)
        invariant stats.Keys == saved.Keys - remaining
        invariant forall loc :: loc in stats ==> stats[loc] == Loaded(saved[loc])
      {
        var loc :| loc in remaining;
        RestoreStats(loc, saved[loc]);
        remaining := remaining - {loc};
      }
    }

    method SetStateAt(newState: TagState, timestamp: int)
      requires Valid()
      modifies this
      ensures Valid() && Repr == old(Repr)
      ensures View() == old(View()).(
                state := newState,
                lastArrived := if newState == Present then timestamp else old(lastArrived),
                lastDeparted := if newState == Departed then timestamp else old(lastDeparted))
    {
      hide TagStats.Valid, TagStats.View;
      match newState {
        case Present => lastArrived := timestamp;
        case Departed => lastDeparted := timestamp;
        case Unknown =>
      }
      state := newState;
    }

    method SetState(newState: TagState)
      requires Valid()
      modifies this
      ensures Valid() && Repr == old(Repr)
      ensures View() == old(View()).(
                state := newState,
                lastArrived := if newState == Present then old(lastRead) else old(lastArrived),
                lastDeparted := if newState == Departed then old(lastRead) else old(lastDeparted))
    {
      SetStateAt(newState, lastRead);
    }

    method ResetStats()
      requires Valid()
      modifies this
      ensures Valid() && Repr == old(Repr)
      ensures View() == old(View()).(stats := map[])
    {
      statsMap, stats := map[], map[];
    }

    /** The statistics kept for a location, created empty when there are none. */
    method GetStats(location: string) returns (found: TagStats)
      requires Valid()
      modifies this
      ensures Valid() && fresh(Repr - old(Repr))
      ensures location in statsMap && found == statsMap[location]
      ensures View() == old(View()).(stats := old(stats)[location := Inventory.GetStats(old(stats), location)])
    {
      hide Valid, TagStats.Valid;
      if location in statsMap {
        found := statsMap[location];
      } else {
        found := new TagStats();
        AddStats(location, found);
      }
    }

    method AddStats(location: string, found: TagStats)
      requires Valid() && location !in statsMap
      requires found.Valid() && found.Repr() !! Repr && found.Repr() !! owner.Keys
      modifies `statsMap, `stats, `owner, `Repr
      ensures Valid() && Repr == old(Repr) + found.Repr()
      ensures statsMap == old(statsMap)[location := found]
      ensures stats == old(stats)[location := found.View()]
    {
      hide TagStats.Valid, TagStats.View;
      statsMap := statsMap[location := found];
      stats := stats[location := found.View()];
      owner := owner[found := location][found.rssiDbm := location][found.rssiDbm.values := location];
      Repr := Repr + found.Repr();
      assert Owns(found, location);
      StatsKept(location);
    }

    /** Adding a location keeps the statistics of the others. */
    twostate lemma StatsKept(location: string)
      requires old(Valid()) && location in statsMap && location !in old(statsMap)
      requires statsMap == old(statsMap)[location := statsMap[location]]
      requires statsMap[location].Valid() && Owns(statsMap[location], location)
      requires stats == old(stats)[location := statsMap[location].View()]
      requires forall o :: o in old(owner) ==> o in owner && owner[o] == old(owner)[o]
      requires this !in owner && old(Repr) <= Repr
      requires unchanged(old(Repr) - {this})
      ensures Valid()
    {
      hide TagStats.Valid, TagStats.View;
      forall k | k in statsMap && k != location
        ensures Owns(statsMap[k], k) && statsMap[k].Valid() && statsMap[k].View() == stats[k]
      {
        assert old(Owns(statsMap[k], k) && statsMap[k].Valid() && statsMap[k].View() == stats[k]);
      }
    }

    /** Records one read in the statistics of the location it came from. */
    method RecordRead(location: string, rssi: Option<real>, stamp: Option<int>)
      requires Valid()
      modifies Repr
      ensures Valid() && fresh(Repr - old(Repr))
      ensures View() == old(View()).(
                stats := old(stats)[location := Record(Inventory.GetStats(old(stats), location), rssi, stamp)])
    {
      hide Valid, Record;
      var found := GetStats(location);
      UpdateStats(location, rssi, stamp);
    }

    method UpdateStats(location: string, rssi: Option<real>, stamp: Option<int>)
      requires Valid() && location in statsMap && location in stats
      modifies Repr - {this}, `stats
      ensures Valid()
      ensures stats == old(stats)[location := Record(old(stats[location]), rssi, stamp)]
    {
      hide TagStats.Valid, TagStats.View, Record, View;
      var found := statsMap[location];
      found.Update(rssi, stamp);
      stats := stats[location := found.View()];
      forall k | k in statsMap
        ensures statsMap[k].Valid() && statsMap[k].View() == stats[k]
      {
        if k != location {
          var other := statsMap[k];
          assert Owns(other, k);
          assert old(other.Valid() && other.View() == stats[k]);
        }
      }
    }

    method RestoreStats(location: string, saved: StaticTagStats)
      requires Valid() && location !in stats
      modifies Repr
      ensures Valid() && fresh(Repr - old(Repr))
      ensures View() == old(View()).(stats := old(stats)[location := Loaded(saved)])
    {
      hide Valid;
      var found := GetStats(location);
      ghost var empty := stats[location];
      LoadStats(location, saved);
      assert Slide(empty.recent, TAG_STATS_WINDOW_SIZE, saved.meanRSSI) == [saved.meanRSSI];
    }

    /** Restores the statistics of one location from a snapshot. */
    method LoadStats(location: string, saved: StaticTagStats)
      requires Valid() && location in statsMap && location in stats
      modifies Repr - {this}, `stats
      ensures Valid()
      ensures var recent := Slide(old(stats[location]).recent, TAG_STATS_WINDOW_SIZE, saved.meanRSSI);
              stats == old(stats)[location := StatsRecord(saved.lastRead, recent)]
    {
      hide TagStats.Valid, TagStats.View, Slide, View;
      var found := statsMap[location];
      found.Load(saved);
      stats := stats[location := found.View()];
      forall k | k in statsMap
        ensures statsMap[k].Valid() && statsMap[k].View() == stats[k]
      {
        if k != location {
          var other := statsMap[k];
          assert Owns(other, k);
          assert old(other.Valid() && other.View() == stats[k]);
        }
      }
    }

    method SetLocation(newLocation: Location)
      requires Valid()
      modifies `location
      ensures Valid()
      ensures location == newLocation
    {
      location := newLocation;
    }

    /** The TID and the time of the latest read; an older read does not turn the clock back. */
    method Observe(data: Option<string>, stamp: Option<int>)
      requires Valid()
      modifies `tid, `lastRead
      ensures Valid()
      ensures tid == data.GetOr(old(tid)) && lastRead == Newer(old(lastRead), stamp)
    {
      hide TagStats.Valid, TagStats.View;
      if data.Some? {
        tid := data.value;
      }
      // an older read must not turn the clock back
      if stamp.Some? && stamp.value > lastRead {
        lastRead := stamp.value;
      }
    }

    /** What `processData` does to a tag before its deferred change of state. */
    method ApplyRead(rt: TagReportData, info: ReportInfo, profile: MobilityProfile)
      requires Valid()
      modifies Repr
      ensures Valid() && fresh(Repr - old(Repr))
      ensures View() == Inventory.ApplyRead(old(View()), rt, info, profile)
    {
      hide Valid, Record;
      var stamp := Stamp(rt, info);
      Observe(rt.ReadDataAsHex(), stamp);

      var antenna := rt.Get(AntennaID);
      if antenna.None? {
        // the location cannot be computed without the antenna
        return;
      }

      var readLocation := Location(info.deviceName, antenna.value);
      RecordRead(readLocation.String(), rt.ExtractRSSI(), stamp);
      if location.IsEmpty() || location == readLocation {
        SetLocation(readLocation);
        return;
      }

      var statsAtPrevLoc := GetStats(location.String());
      assert View() == Absorb(old(View()), rt, info);
      var moves := ShouldMove(readLocation.String(), info, profile);
      if moves {
        SetLocation(readLocation);
      }
    }

    /** Whether the tag leaves its location for the one it was just read at. */
    method ShouldMove(readName: string, info: ReportInfo, profile: MobilityProfile) returns (moves: bool)
      requires Valid()
      requires location.String() in stats && readName in stats
      ensures var here, there := stats[location.String()], stats[readName];
              moves <==>
              || here.recent == []
              || (|there.recent| >= 2
                  && MeanOf(there.recent) - MeanOf(here.recent)
                     > profile.ComputeOffset(info.referenceTimestamp, here.lastRead))
    {
      hide CircularBuffer.Valid;
      var statsAtPrevLoc, statsAtReadLoc := statsMap[location.String()], statsMap[readName];
      if statsAtPrevLoc.RSSICount() == 0 {
        return true;
      }
      // at least two data points are needed
      if statsAtReadLoc.RSSICount() < 2 {
        return false;
      }
      var locationMean := statsAtPrevLoc.rssiDbm.Mean();
      var incomingMean := statsAtReadLoc.rssiDbm.Mean();
      var offset := profile.ComputeOffset(info.referenceTimestamp, statsAtPrevLoc.lastRead);
      // a mean is missing only for an empty buffer, and neither is empty here
      return incomingMean.value > locationMean.value + offset;
    }

    /** The statistics part of a snapshot; locations without a value are skipped. */
    method SnapshotStats() returns (saved: map<string, StaticTagStats>)
      requires Valid()
      ensures saved == StaticStats(stats)
    {
      saved := map[];
      var remaining := statsMap.Keys;
      while remaining != {}
        invariant remaining <= statsMap.Keys
        invariant saved == StaticStats(stats - remaining)
      {
        hide CircularBuffer.Valid, StaticStats;
        var loc :| loc in remaining;
        StaticStatsStep(stats, remaining, loc);
        remaining := remaining - {loc};
        var found := statsMap[loc];
        if found.RSSICount() != 0 {
          var mean := found.rssiDbm.Mean();
          saved := saved[loc := StaticTagStats(found.lastRead, mean.value)];
        }
      }
      assert stats - remaining == stats;
    }
  }
}
