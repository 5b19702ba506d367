/** What the settings of a configuration make the inventory do, from when they are set on. */
module SettingsLaws {
  import opened Basics
  import opened MobilityProfiles
  import opened TagReports
  import opened Inventory
  import opened Actions
  import opened Sweeps

  /** `s` comes from setting `cfg`, or from starting with it, by operations that do not set another. */
  ghost predicate RunsUnder(s: InventoryState, cfg: CustomConfig) {
    exists s0: InventoryState, snap: seq<StaticTag>, ops: seq<Op> :: FollowsFrom(s, cfg, s0, snap, ops)
  }

  ghost predicate FollowsFrom(
      s: InventoryState, cfg: CustomConfig, s0: InventoryState, snap: seq<StaticTag>, ops: seq<Op>) {
    && (forall i :: 0 <= i < |ops| ==> !ops[i].ConfigOp?)
    && (s == Run(Apply(s0, ConfigOp(cfg)).state, ops).state || s == Run(Restore(snap, cfg), ops).state)
  }

  lemma {:induction false} OnlyConfigOpsConfigure(s: InventoryState, ops: seq<Op>)
    requires forall i :: 0 <= i < |ops| ==> !ops[i].ConfigOp?
    ensures Run(s, ops).state.config == s.config
  {
    hide ReadTag, Overdue, Expired;
    if ops != [] {
      OnlyConfigOpsConfigure(s, ops[..|ops| - 1]);
    }
  }

  lemma ConfigOf(s: InventoryState, cfg: CustomConfig)
    requires RunsUnder(s, cfg)
    ensures s.config == NewProcessorConfig(cfg)
  {
    var s0: InventoryState, snap: seq<StaticTag>, ops: seq<Op> :| FollowsFrom(s, cfg, s0, snap, ops);
    OnlyConfigOpsConfigure(Apply(s0, ConfigOp(cfg)).state, ops);
    OnlyConfigOpsConfigure(Restore(snap, cfg), ops);
    hide Run, NewProcessorConfig;
  }

  /** A new configuration touches no tag and raises nothing. */
  lemma ConfiguringTouchesNoTag(s: InventoryState, cfg: CustomConfig)
    ensures Apply(s, ConfigOp(cfg)).state.tags == s.tags && Apply(s, ConfigOp(cfg)).events == []
    ensures RunsUnder(Apply(s, ConfigOp(cfg)).state, cfg)
  {
    var s' := Apply(s, ConfigOp(cfg)).state;
    assert Run(s', []).state == s';
    assert FollowsFrom(s', cfg, s, [], []);
  }

  lemma StartingRunsUnder(snap: seq<StaticTag>, cfg: CustomConfig)
    ensures RunsUnder(Restore(snap, cfg), cfg)
  {
    var s := Restore(snap, cfg);
    assert Run(s, []).state == s;
    assert FollowsFrom(s, cfg, s, snap, []);
  }

  /** A departure visit departs a present tag exactly if it has been silent for longer than the set number
      of seconds; it then stamps it with the time of the sweep and forgets its statistics, and changes
      nothing else. */
  lemma SettingsDepart(s: InventoryState, cfg: CustomConfig, e: string, now: int)
    requires RunsUnder(s, cfg) && e in s.tags && 0 <= s.tags[e].lastRead
    ensures var tag, out := s.tags[e], Apply(s, DepartOp(e, now));
            var departs := tag.state == Present
                           && now / 1_000_000 - tag.lastRead > cfg.appSettings.departedThresholdSeconds * 1000;
            && (out.events != [] <==> departs)
            && out.state.tags == if !departs then s.tags
                                 else s.tags[e := TagRecord(tag.epc, tag.tid, tag.location, tag.lastRead,
                                                            now / 1_000_000, tag.lastArrived, Departed, map[])]
  {
    ConfigOf(s, cfg);
    OverdueMeans(s.tags[e], s.config, now);
    hide RunsUnder, Overdue, DepartureOf;
  }

  /** An age-out visit removes a departed tag exactly if it was last read more than the set number of hours
      ago. */
  lemma SettingsAgeOut(s: InventoryState, cfg: CustomConfig, e: string, now: int)
    requires RunsUnder(s, cfg) && e in s.tags
    ensures var tag, out := s.tags[e], Apply(s, AgeOp(e, now));
            var ages := tag.state == Departed
                        && now / 1_000_000 - tag.lastRead > cfg.appSettings.ageOutHours * 3_600_000;
            out.events == [] && out.state.tags == if ages then s.tags - {e} else s.tags
  {
    ConfigOf(s, cfg);
    ExpiredMeans(s.tags[e], s.config, now);
    hide RunsUnder, Expired;
  }

  /** A report is read in order, all of it under one clock: the device's own if adjustment is not set, and
      otherwise shifted so that its newest read falls on the origin. */
  lemma SettingsAdjust(s: InventoryState, cfg: CustomConfig, report: seq<TagReportData>, device: string, origin: int)
    requires RunsUnder(s, cfg)
    ensures var ops, newest := OpsOf(s.config, Report(report, device, origin)), NewestSeen(report);
            var offset := if cfg.appSettings.adjustLastReadOnByOrigin && newest > 0
                          then TruncDiv(origin, 1000) - newest else 0;
            && |ops| == |report|
            && forall i :: 0 <= i < |report| ==>
                 ops[i] == ReadOp(report[i], ReportInfo(device, origin, offset, TruncDiv(origin, 1_000_000)))
  {
    ConfigOf(s, cfg);
    hide RunsUnder, NewestSeen, TruncDiv;
  }

  /** The offset that decides on moves falls by the set slope for each millisecond beyond the set holdoff
      time, and is never more than the set threshold. */
  lemma SettingsMove(s: InventoryState, cfg: CustomConfig, now: int, lastRead: int)
    requires RunsUnder(s, cfg)
    ensures var settings := cfg.appSettings;
            var beyond := (now - lastRead) as real - settings.mobilityProfileHoldoffMillis;
            var uncapped := settings.mobilityProfileThreshold + settings.mobilityProfileSlope * beyond;
            s.config.profile.ComputeOffset(now, lastRead) ==
            if uncapped > settings.mobilityProfileThreshold then settings.mobilityProfileThreshold else uncapped
  {
    var settings := cfg.appSettings;
    ConfigOf(s, cfg);
    OffsetFromSettings(settings.mobilityProfileSlope, settings.mobilityProfileThreshold,
      settings.mobilityProfileHoldoffMillis, now, lastRead);
    hide RunsUnder, NewMobilityProfile, MobilityProfile.ComputeOffset;
  }

  /** The set aliases hold, but for one of the blank name. */
  lemma SettingsName(s: InventoryState, cfg: CustomConfig)
    requires RunsUnder(s, cfg)
    ensures s.config.aliases.Keys == cfg.aliases.Keys - {""}
    ensures forall name :: name in s.config.aliases ==> s.config.aliases[name] == cfg.aliases[name]
  {
    ConfigOf(s, cfg);
    hide RunsUnder;
  }
}
