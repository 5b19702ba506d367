/** When a read moves a tag: how long a location holds it, and when it has to let go. */
module Movement {
  import opened Basics
  import opened Locations
  import opened CircularBuffers
  import opened MobilityProfiles
  import opened TagReports
  import opened Inventory
  import opened TagHistories

  /** Every RSSI value that a run records for the tag lies between `lo` and `hi`. */
  ghost predicate ReadsInBand(ops: seq<Op>, epc: string, lo: real, hi: real) {
    forall i :: 0 <= i < |ops| && ops[i].ReadOp? && ops[i].rt.EPC() == epc && ops[i].rt.ExtractRSSI().Some? ==>
      lo <= ops[i].rt.ExtractRSSI().value <= hi
  }

  /** What was heard of the tag over a run, on top of the window it started with. */
  function HeardSince(s: InventoryState, ops: seq<Op>, epc: string, loc: Location): seq<real> {
    Heard(s, ops, epc, loc, Recent(s, epc, loc))
  }

  lemma {:induction false} HeardInBand(s: InventoryState, ops: seq<Op>, epc: string, loc: Location, lo: real, hi: real)
    requires KeptInBand(s, epc, lo, hi) && ReadsInBand(ops, epc, lo, hi)
    ensures InBand(HeardSince(s, ops, epc, loc), lo, hi)
  {
    hide Run, Overdue, Expired, TagReportData.EPC, TagReportData.ExtractRSSI, ReadLocation;
    if ops != [] {
      HeardInBand(s, ops[..|ops| - 1], epc, loc, lo, hi);
      assert ops[|ops| - 1].ReadOp? ==> ops[|ops| - 1] == ops[..][|ops| - 1];
    }
  }

  lemma WindowOfHeard(s: InventoryState, ops: seq<Op>, epc: string, loc: Location)
    requires AllWellKept(s)
    ensures GetStats(TagBefore(Run(s, ops).state, epc).stats, loc.String()).recent
            == LastN(HeardSince(s, ops, epc, loc), TAG_STATS_WINDOW_SIZE)
  {
    hide Run, Heard, Location.String;
    WindowIsWhatWasHeard(s, ops, epc, loc, Recent(s, epc, loc));
  }

  /** So does the window, including after one more such read. */
  lemma WindowsInBand(
      s: InventoryState, ops: seq<Op>, rt: TagReportData, info: ReportInfo, loc: Location, lo: real, hi: real)
    requires KeptInBand(s, rt.EPC(), lo, hi) && ReadsInBand(ops + [ReadOp(rt, info)], rt.EPC(), lo, hi)
    ensures var tag := TagBefore(Run(s, ops).state, rt.EPC());
            && InBand(GetStats(tag.stats, loc.String()).recent, lo, hi)
            && InBand(GetStats(Absorb(tag, rt, info).stats, loc.String()).recent, lo, hi)
  {
    hide Run, Heard, HeardSince, AllWellKept, Absorb, TagReportData.EPC, TagReportData.ExtractRSSI, Location.String,
      ReadLocation, Stamp;
    var epc := rt.EPC();
    assert ReadsInBand(ops, epc, lo, hi) by {
      assert forall i :: 0 <= i < |ops| ==> ops[i] == (ops + [ReadOp(rt, info)])[i];
    }
    assert rt.ExtractRSSI().Some? ==> lo <= rt.ExtractRSSI().value <= hi by {
      assert (ops + [ReadOp(rt, info)])[|ops|] == ReadOp(rt, info);
    }
    HeardInBand(s, ops, epc, loc, lo, hi);
    WindowOfHeard(s, ops, epc, loc);
    AbsorbWindow(TagBefore(Run(s, ops).state, epc), rt, info, loc);
  }

  /** Bounds on a tag's values hold over a whole run, for its windows at all locations. */
  lemma RunKeepsBand(s: InventoryState, ops: seq<Op>, epc: string, lo: real, hi: real)
    requires KeptInBand(s, epc, lo, hi) && ReadsInBand(ops, epc, lo, hi)
    ensures KeptInBand(Run(s, ops).state, epc, lo, hi)
  {
    hide Run, Heard, HeardSince, AllWellKept, ReadsInBand;
    ClocksOverRuns(s, ops, epc);
    forall loc
      ensures InBand(Recent(Run(s, ops).state, epc, loc), lo, hi)
    {
      HeardInBand(s, ops, epc, loc, lo, hi);
      WindowOfHeard(s, ops, epc, loc);
    }
  }

  /** Hysteresis. After any run in which the values recorded for a tag span no more than the
      configured threshold, a read that keeps within that span cannot take the tag away from a
      location that has a history and was itself read within the holdoff time. */
  lemma HoldsDuringHoldoff(
      s0: InventoryState, ops: seq<Op>, rt: TagReportData, info: ReportInfo, cfg: CustomConfig, lo: real)
    requires cfg.appSettings.mobilityProfileSlope <= 0.0
    requires var hi := lo + cfg.appSettings.mobilityProfileThreshold;
             KeptInBand(s0, rt.EPC(), lo, hi) && ReadsInBand(ops + [ReadOp(rt, info)], rt.EPC(), lo, hi)
    requires var s := Run(s0, ops).state;
             && s.config == NewProcessorConfig(cfg)
             && var tag := TagBefore(s, rt.EPC());
                var here := GetStats(tag.stats, tag.location.String());
             && !tag.location.IsEmpty() && here.recent != []
             && (info.referenceTimestamp - here.lastRead) as real <= cfg.appSettings.mobilityProfileHoldoffMillis
    ensures var s := Run(s0, ops).state;
            ReadTag(TagBefore(s, rt.EPC()), rt, info, s.config).tag.location == TagBefore(s, rt.EPC()).location
  {
    var s, settings := Run(s0, ops).state, cfg.appSettings;
    var tag, hi := TagBefore(s, rt.EPC()), lo + settings.mobilityProfileThreshold;
    var absorbed := Absorb(tag, rt, info);
    var here := GetStats(absorbed.stats, tag.location.String());
    assert absorbed.location == tag.location;
    if ReadLocation(rt, info).Some? && ReadLocation(rt, info).value != tag.location {
      var loc := ReadLocation(rt, info).value;
      AbsorbWindow(tag, rt, info, tag.location);
      FullThresholdDuringHoldoff(
        settings.mobilityProfileSlope, settings.mobilityProfileThreshold, settings.mobilityProfileHoldoffMillis,
        info.referenceTimestamp, here.lastRead);
      hide Run, Absorb, ReadsInBand, KeptInBand, MeanOf, TagReportData.EPC, Location.String, NewMobilityProfile,
        InBand, ReadLocation, Stamp;
      WindowsInBand(s0, ops, rt, info, tag.location, lo, hi);
      WindowsInBand(s0, ops, rt, info, loc, lo, hi);
      MeanBetween(here.recent, lo, hi);
      var there := GetStats(absorbed.stats, loc.String());
      if |there.recent| >= 2 {
        MeanBetween(there.recent, lo, hi);
      }
    }
  }

  lemma EveryReadInRange(ops: seq<Op>, epc: string)
    ensures ReadsInBand(ops, epc, RSSI_MIN, RSSI_MAX)
  {
    hide TagReportData.ExtractRSSI, TagReportData.EPC;
    forall i | 0 <= i < |ops| && ops[i].ReadOp?
      ensures ops[i].rt.ExtractRSSI().Some? ==> RSSI_MIN <= ops[i].rt.ExtractRSSI().value <= RSSI_MAX
    {
      ExtractedRSSIRange(ops[i].rt);
    }
  }

  lemma LineAboveOffset(p: MobilityProfile, now: int, lastRead: int)
    ensures p.ComputeOffset(now, lastRead) <= p.Line(now, lastRead)
  {
  }

  lemma StaleChoice(absorbed: TagRecord, rt: TagReportData, info: ReportInfo, profile: MobilityProfile)
    requires ReadLocation(rt, info).Some?
    requires var here := GetStats(absorbed.stats, absorbed.location.String());
             var there := GetStats(absorbed.stats, ReadLocation(rt, info).value.String());
             && InBand(here.recent, RSSI_MIN, RSSI_MAX) && InBand(there.recent, RSSI_MIN, RSSI_MAX)
             && |there.recent| >= 2
             && profile.ComputeOffset(info.referenceTimestamp, here.lastRead) < RSSI_MIN - RSSI_MAX
    ensures Some(ChooseLocation(absorbed, rt, info, profile)) == ReadLocation(rt, info)
  {
    var here := GetStats(absorbed.stats, absorbed.location.String());
    var there := GetStats(absorbed.stats, ReadLocation(rt, info).value.String());
    if here.recent != [] {
      MeanBetween(here.recent, RSSI_MIN, RSSI_MAX);
    }
    MeanBetween(there.recent, RSSI_MIN, RSSI_MAX);
    hide MeanOf, InBand, ReadLocation, GetStats, MobilityProfile.ComputeOffset;
  }

  /** A tag cannot stick to a stale location: once the decay line has fallen below the whole RSSI
      range, any read at another location that holds two values takes the tag there. */
  lemma LetsGoWhenStale(s0: InventoryState, ops: seq<Op>, rt: TagReportData, info: ReportInfo)
    requires KeptInBand(s0, rt.EPC(), RSSI_MIN, RSSI_MAX)
    requires var s := Run(s0, ops).state;
             var tag := TagBefore(s, rt.EPC());
             && ReadLocation(rt, info).Some? && ReadLocation(rt, info).value != tag.location
             && |GetStats(Absorb(tag, rt, info).stats, ReadLocation(rt, info).value.String()).recent| >= 2
             && s.config.profile.Line(info.referenceTimestamp, GetStats(tag.stats, tag.location.String()).lastRead)
                < RSSI_MIN - RSSI_MAX
    ensures var s := Run(s0, ops).state;
            Some(ReadTag(TagBefore(s, rt.EPC()), rt, info, s.config).tag.location) == ReadLocation(rt, info)
  {
    var s := Run(s0, ops).state;
    var tag, loc := TagBefore(s, rt.EPC()), ReadLocation(rt, info).value;
    var absorbed := Absorb(tag, rt, info);
    assert absorbed.location == tag.location;
    AbsorbWindow(tag, rt, info, tag.location);
    LineAboveOffset(s.config.profile, info.referenceTimestamp, GetStats(tag.stats, tag.location.String()).lastRead);
    hide Run, Absorb, ReadsInBand, KeptInBand, MeanOf, TagReportData.EPC, Location.String, InBand, ReadLocation,
      Stamp, ChooseLocation, Record, GetStats, MobilityProfile.ComputeOffset, MobilityProfile.Line;
    EveryReadInRange(ops + [ReadOp(rt, info)], rt.EPC());
    WindowsInBand(s0, ops, rt, info, tag.location, RSSI_MIN, RSSI_MAX);
    WindowsInBand(s0, ops, rt, info, loc, RSSI_MIN, RSSI_MAX);
    StaleChoice(absorbed, rt, info, s.config.profile);
  }

  /** The values heard of the read's tag at a location over the whole run, this read included, as far
      as the window reaches, on top of the window that the run started with. */
  function Window(s0: InventoryState, ops: seq<Op>, rt: TagReportData, info: ReportInfo, loc: Location): seq<real> {
    LastN(HeardSince(s0, ops + [ReadOp(rt, info)], rt.EPC(), loc), TAG_STATS_WINDOW_SIZE)
  }

  lemma WindowIsAbsorbed(s0: InventoryState, ops: seq<Op>, rt: TagReportData, info: ReportInfo, loc: Location)
    requires AllWellKept(s0)
    ensures var tag := TagBefore(Run(s0, ops).state, rt.EPC());
            GetStats(Absorb(tag, rt, info).stats, loc.String()).recent == Window(s0, ops, rt, info, loc)
  {
    var op := ReadOp(rt, info);
    var mid := Run(s0, ops).state;
    WindowOfHeard(s0, ops + [op], rt.EPC(), loc);
    RunSnoc(s0, ops, op);
    hide Run, HeardSince, AllWellKept, Heard, Absorb, ChooseLocation, TagReportData.EPC, Location.String,
      ProcessorConfig.Alias, LastN;
    assert Recent(Apply(mid, op).state, rt.EPC(), loc)
           == GetStats(Absorb(TagBefore(mid, rt.EPC()), rt, info).stats, loc.String()).recent;
  }

  /** Whether a read at another location moves a tag depends on the whole run only through the two
      windows of what was heard: the tag moves exactly when nothing is remembered of where it was, or
      when it was heard at least twice at the new location and better there, on average, than the
      old location's average plus the offset. */
  lemma MovesExactlyWhen(s0: InventoryState, ops: seq<Op>, rt: TagReportData, info: ReportInfo)
    requires AllWellKept(s0)
    requires var tag := TagBefore(Run(s0, ops).state, rt.EPC());
             && !tag.location.IsEmpty()
             && ReadLocation(rt, info).Some? && ReadLocation(rt, info).value != tag.location
    ensures var s := Run(s0, ops).state;
            var tag, loc := TagBefore(s, rt.EPC()), ReadLocation(rt, info).value;
            var here, there := Window(s0, ops, rt, info, tag.location), Window(s0, ops, rt, info, loc);
            var lastHere := GetStats(tag.stats, tag.location.String()).lastRead;
            var offset := s.config.profile.ComputeOffset(info.referenceTimestamp, lastHere);
            ReadTag(tag, rt, info, s.config).tag.location ==
            if here == [] then loc
            else if |there| >= 2 && MeanOf(there) > MeanOf(here) + offset
            then loc
            else tag.location
  {
    var s := Run(s0, ops).state;
    var tag, loc := TagBefore(s, rt.EPC()), ReadLocation(rt, info).value;
    assert Absorb(tag, rt, info).location == tag.location;
    AbsorbWindow(tag, rt, info, tag.location);
    hide Run, Window, Absorb, MeanOf, TagReportData.EPC, Location.String, ReadLocation, Stamp, Record,
      MobilityProfile.ComputeOffset, ProcessorConfig.Alias;
    WindowIsAbsorbed(s0, ops, rt, info, tag.location);
    WindowIsAbsorbed(s0, ops, rt, info, loc);
  }
}
