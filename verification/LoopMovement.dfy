/** Across crashes and restarts, the tags' clocks and RSSI windows stay sound, and so the laws of
    movement hold throughout the life of the task loop. */
module LoopMovement {
  import opened Basics
  import opened Locations
  import opened MobilityProfiles
  import opened TagReports
  import opened Inventory
  import opened Actions
  import opened TagHistories
  import opened Movement
  import opened Snapshots
  import opened TaskLoops

  /** Every RSSI value that a report carries for the tag lies between `lo` and `hi`. */
  ghost predicate InputInBand(input: Input, epc: string, lo: real, hi: real) {
    input.ReportArrives? ==>
      forall i :: 0 <= i < |input.report| && input.report[i].EPC() == epc && input.report[i].ExtractRSSI().Some? ==>
        lo <= input.report[i].ExtractRSSI().value <= hi
  }

  /** True of the live inventory, and of what a restart from the file would give. */
  ghost predicate LoopInBand(l: Loop, epc: string, lo: real, hi: real) {
    KeptInBand(l.live, epc, lo, hi) && KeptInBand(OnFile(l.file), epc, lo, hi)
  }

  lemma InputOpsInBand(l: Loop, input: Input, epc: string, lo: real, hi: real)
    requires ActionOf(input).Some? && InputInBand(input, epc, lo, hi)
    ensures ReadsInBand(OpsOf(l.live.config, ActionOf(input).value), epc, lo, hi)
  {
    hide TagReportData.EPC, TagReportData.ExtractRSSI;
  }

  lemma SameTagsKept(s: InventoryState, s': InventoryState, epc: string, lo: real, hi: real)
    requires s.tags == s'.tags && KeptInBand(s, epc, lo, hi)
    ensures KeptInBand(s', epc, lo, hi)
  {
    hide WellKept, GetStats, Location.String;
    forall loc
      ensures Recent(s', epc, loc) == Recent(s, epc, loc)
    {
    }
  }

  lemma StepKeepsBand(l: Loop, input: Input, l': Loop, epc: string, lo: real, hi: real)
    requires Invariant(l) && Step(l, input, l') && LoopInBand(l, epc, lo, hi) && InputInBand(input, epc, lo, hi)
    ensures LoopInBand(l', epc, lo, hi)
  {
    hide KeptInBand, InputInBand, Run, IsSnapshot, Mirrors, OpsOf, Enumerates, RestoreTags;
    if ActionOf(input).Some? {
      InputOpsInBand(l, input, epc, lo, hi);
      RunKeepsBand(l.live, OpsOf(l.live.config, ActionOf(input).value), epc, lo, hi);
    }
    match input {
      case Persist => RestoredKeptInBand(l.cached, l.live, OnFile(l.cached).config, epc, lo, hi);
      case Restart(_) => SameTagsKept(OnFile(l.file), l'.live, epc, lo, hi);
      case _ =>
    }
  }

  /** Over every run of the loop, whatever crashes it suffers: bounds on the values reported for a
      tag bound everything remembered of it, and all clocks are in order. */
  lemma {:induction false} LoopKeepsBand(
      ls: seq<Loop>, inputs: seq<Input>, cfg: CustomConfig, i: nat, epc: string, lo: real, hi: real)
    requires IsRun(ls, inputs, cfg) && i < |ls|
    requires forall k :: 0 <= k < i ==> InputInBand(inputs[k], epc, lo, hi)
    ensures LoopInBand(ls[i], epc, lo, hi)
  {
    if i > 0 {
      LoopKeepsBand(ls, inputs, cfg, i - 1, epc, lo, hi);
      InvariantOverRuns(ls, inputs, cfg, i - 1);
      hide Step, Invariant, InputInBand, LoopInBand;
      StepKeepsBand(ls[i - 1], inputs[i - 1], ls[i], epc, lo, hi);
    }
  }

  /** Values extracted from reports are always in the range of the protocol, so nothing outside it is
      ever remembered, and no stored tag is ever Unknown or has its clocks out of order. */
  lemma LoopKeepsTagsWell(ls: seq<Loop>, inputs: seq<Input>, cfg: CustomConfig, i: nat, epc: string)
    requires IsRun(ls, inputs, cfg) && i < |ls|
    ensures AllWellKept(ls[i].live) && KeptInBand(ls[i].live, epc, RSSI_MIN, RSSI_MAX)
  {
    hide Step, KeptInBand;
    forall k | 0 <= k < i
      ensures InputInBand(inputs[k], epc, RSSI_MIN, RSSI_MAX)
    {
      InputInRange(inputs[k], epc);
    }
    LoopKeepsBand(ls, inputs, cfg, i, epc, RSSI_MIN, RSSI_MAX);
    assert AllWellKept(ls[i].live) by {
      KeptIsWellKept(ls[i].live, epc, RSSI_MIN, RSSI_MAX);
    }
  }

  lemma KeptIsWellKept(s: InventoryState, epc: string, lo: real, hi: real)
    requires KeptInBand(s, epc, lo, hi)
    ensures AllWellKept(s)
  {
  }

  lemma InputInRange(input: Input, epc: string)
    ensures InputInBand(input, epc, RSSI_MIN, RSSI_MAX)
  {
    hide TagReportData.ExtractRSSI, TagReportData.EPC;
    if input.ReportArrives? {
      forall k | 0 <= k < |input.report|
        ensures input.report[k].ExtractRSSI().Some? ==> RSSI_MIN <= input.report[k].ExtractRSSI().value <= RSSI_MAX
      {
        ExtractedRSSIRange(input.report[k]);
      }
    }
  }

  /** Hysteresis in the life of the loop: if all reports so far, and the reads now, keep a tag's
      values within the configured threshold, then restarts and all, no such read takes the tag from
      a location with a history that was itself read within the holdoff time. */
  lemma HoldsAcrossRestarts(
      ls: seq<Loop>, inputs: seq<Input>, cfg: CustomConfig, i: nat,
      ops: seq<Op>, rt: TagReportData, info: ReportInfo, current: CustomConfig, lo: real)
    requires IsRun(ls, inputs, cfg) && i < |ls|
    requires current.appSettings.mobilityProfileSlope <= 0.0
    requires var hi := lo + current.appSettings.mobilityProfileThreshold;
             && (forall k :: 0 <= k < i ==> InputInBand(inputs[k], rt.EPC(), lo, hi))
             && ReadsInBand(ops + [ReadOp(rt, info)], rt.EPC(), lo, hi)
    requires var s := Run(ls[i].live, ops).state;
             && s.config == NewProcessorConfig(current)
             && var tag := TagBefore(s, rt.EPC());
                var here := GetStats(tag.stats, tag.location.String());
             && !tag.location.IsEmpty() && here.recent != []
             && (info.referenceTimestamp - here.lastRead) as real <= current.appSettings.mobilityProfileHoldoffMillis
    ensures var s := Run(ls[i].live, ops).state;
            ReadTag(TagBefore(s, rt.EPC()), rt, info, s.config).tag.location == TagBefore(s, rt.EPC()).location
  {
    hide Step, KeptInBand, InputInBand, ReadsInBand, Run, ReadTag, NewProcessorConfig, TagReportData.EPC,
      Location.String, GetStats;
    LoopKeepsBand(ls, inputs, cfg, i, rt.EPC(), lo, lo + current.appSettings.mobilityProfileThreshold);
    HoldsDuringHoldoff(ls[i].live, ops, rt, info, current, lo);
  }

  /** Nor can a tag ever stick to a stale location, in any life of the loop. */
  lemma LetsGoAcrossRestarts(
      ls: seq<Loop>, inputs: seq<Input>, cfg: CustomConfig, i: nat, ops: seq<Op>, rt: TagReportData, info: ReportInfo)
    requires IsRun(ls, inputs, cfg) && i < |ls|
    requires var s := Run(ls[i].live, ops).state;
             var tag := TagBefore(s, rt.EPC());
             && ReadLocation(rt, info).Some? && ReadLocation(rt, info).value != tag.location
             && |GetStats(Absorb(tag, rt, info).stats, ReadLocation(rt, info).value.String()).recent| >= 2
             && s.config.profile.Line(info.referenceTimestamp, GetStats(tag.stats, tag.location.String()).lastRead)
                < RSSI_MIN - RSSI_MAX
    ensures var s := Run(ls[i].live, ops).state;
            Some(ReadTag(TagBefore(s, rt.EPC()), rt, info, s.config).tag.location) == ReadLocation(rt, info)
  {
    hide Step, KeptInBand, Run, ReadTag, Absorb, TagReportData.EPC, Location.String, GetStats, ReadLocation,
      MobilityProfile.Line;
    LoopKeepsTagsWell(ls, inputs, cfg, i, rt.EPC());
    LetsGoWhenStale(ls[i].live, ops, rt, info);
  }
}
