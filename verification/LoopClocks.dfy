/** Across crashes and restarts, nothing remembered of a tag is later than the latest report. */
module LoopClocks {
  import opened TagReports
  import opened Inventory
  import opened Actions
  import opened Clocks
  import opened Snapshots
  import opened TaskLoops

  /** Adjustment is on in every configuration that the loop takes, and the origins of reports are non-negative. */
  ghost predicate OrderlyInput(input: Input) {
    match input
    case ReportArrives(_, _, origin) => 0 <= origin < INT64
    case ConfigArrives(cfg) => cfg.appSettings.Validate() ==> cfg.appSettings.adjustLastReadOnByOrigin
    case Restart(cfg) => cfg.appSettings.adjustLastReadOnByOrigin
    case _ => true
  }

  /** And origins never go back, not even from one life of the loop to the next. */
  ghost predicate Orderly(inputs: seq<Input>) {
    && (forall i :: 0 <= i < |inputs| ==> OrderlyInput(inputs[i]))
    && (forall i, j :: 0 <= i < j < |inputs| && inputs[i].ReportArrives? && inputs[j].ReportArrives? ==>
          inputs[i].originNanos <= inputs[j].originNanos)
  }

  /** The origin of the latest report. */
  function Latest(inputs: seq<Input>): int {
    if inputs == [] then 0
    else
      var last := inputs[|inputs| - 1];
      if last.ReportArrives? then last.originNanos else Latest(inputs[..|inputs| - 1])
  }

  lemma {:induction false} LatestIsLast(inputs: seq<Input>)
    requires Orderly(inputs)
    ensures 0 <= Latest(inputs)
    ensures forall i :: 0 <= i < |inputs| && inputs[i].ReportArrives? ==> inputs[i].originNanos <= Latest(inputs)
    ensures Latest(inputs) == 0
            || exists i :: 0 <= i < |inputs| && inputs[i].ReportArrives? && inputs[i].originNanos == Latest(inputs)
  {
    if inputs != [] {
      LatestIsLast(inputs[..|inputs| - 1]);
    }
  }

  /** True of the live inventory, and of what a restart from the file would give. */
  ghost predicate LoopNotAfter(l: Loop, t: int) {
    && l.live.config.adjustLastReadOnByOrigin
    && NotAfter(l.live, t) && NotAfter(OnFile(l.file), t)
  }

  lemma RestoredTagNotAfter(tag: TagRecord, t: StaticTag, config: ProcessorConfig, time: int)
    requires TagNotAfter(tag, time) && t.(locationAlias := "") == Static(tag, config).(locationAlias := "")
    ensures TagNotAfter(FromStatic(t), time)
  {
    var saved := Static(tag, config);
    assert t.(locationAlias := "").statsMap == saved.statsMap && t.(locationAlias := "").lastRead == saved.lastRead;
    assert FromStatic(t).stats == FromStatic(saved).stats;
  }

  lemma RestoredNotAfter(snap: seq<StaticTag>, s: InventoryState, config: ProcessorConfig, time: int)
    requires Mirrors(snap, s) && NotAfter(s, time)
    ensures NotAfter(InventoryState(RestoreTags(snap), config), time)
  {
    RestoredTags(snap);
    hide Static, FromStatic, TagNotAfter, RestoreTags;
    var r := InventoryState(RestoreTags(snap), config);
    forall e | e in r.tags
      ensures TagNotAfter(r.tags[e], time)
    {
      assert Lists(snap, e);
      var i :| 0 <= i < |snap| && snap[i].epc == e;
      RestoredTagNotAfter(s.tags[e], snap[i], s.config, time);
    }
  }

  lemma StepNotAfter(l: Loop, input: Input, l': Loop, origin: int)
    requires Invariant(l) && Step(l, input, l') && OrderlyInput(input)
    requires 0 <= origin && LoopNotAfter(l, origin / 1_000_000)
    requires input.ReportArrives? ==> origin <= input.originNanos
    ensures LoopNotAfter(l', (if input.ReportArrives? then input.originNanos else origin) / 1_000_000)
  {
    hide NotAfter, Run, IsSnapshot, Mirrors, OpsOf, Enumerates, RestoreTags;
    if ActionOf(input).Some? {
      ActionNotAfter(l.live, ActionOf(input).value, origin);
    }
    match input {
      case ReportArrives(_, _, later) => LaterStill(OnFile(l.file), origin / 1_000_000, later / 1_000_000);
      case Persist => RestoredNotAfter(l.cached, l.live, OnFile(l.cached).config, origin / 1_000_000);
      case Restart(_) => SameTagsNotAfter(OnFile(l.file), l'.live, origin / 1_000_000);
      case _ =>
    }
  }

  lemma SameTagsNotAfter(s: InventoryState, s': InventoryState, t: int)
    requires s.tags == s'.tags && NotAfter(s, t)
    ensures NotAfter(s', t)
  {
  }

  lemma OrderlySnoc(inputs: seq<Input>, last: Input)
    requires Orderly(inputs + [last])
    ensures Orderly(inputs) && OrderlyInput(last) && 0 <= Latest(inputs)
    ensures last.ReportArrives? ==> Latest(inputs) <= last.originNanos
    ensures Latest(inputs + [last]) == if last.ReportArrives? then last.originNanos else Latest(inputs)
  {
    var all := inputs + [last];
    assert all[..|inputs|] == inputs && all[|inputs|] == last;
    assert forall k :: 0 <= k < |inputs| ==> inputs[k] == all[k];
    LatestIsLast(inputs);
  }

  /** Over every run of the loop with origins in order, whatever crashes it suffers: nothing in the
      inventory, or in the file, is later than the latest report's reference time. */
  lemma {:induction false} LoopNeverAhead(ls: seq<Loop>, inputs: seq<Input>, cfg: CustomConfig, i: nat)
    requires IsRun(ls, inputs, cfg) && i < |ls|
    requires cfg.appSettings.adjustLastReadOnByOrigin && Orderly(inputs[..i])
    ensures LoopNotAfter(ls[i], Latest(inputs[..i]) / 1_000_000)
  {
    if i > 0 {
      var before := inputs[..i - 1];
      assert inputs[..i] == before + [inputs[i - 1]];
      InvariantOverRuns(ls, inputs, cfg, i - 1);
      hide Step, Invariant, LoopNotAfter, Orderly, OrderlyInput, Latest;
      OrderlySnoc(before, inputs[i - 1]);
      LoopNeverAhead(ls, inputs, cfg, i - 1);
      StepNotAfter(ls[i - 1], inputs[i - 1], ls[i], Latest(before));
    }
  }

  /** So in every life of the loop, no read of a further report asks the mobility profile about a
      negative time. */
  lemma ElapsedNeverNegativeInLoop(
      ls: seq<Loop>, inputs: seq<Input>, cfg: CustomConfig, i: nat, k: nat, loc: string)
    requires IsRun(ls, inputs, cfg) && i < |inputs| && inputs[i].ReportArrives? && k < |inputs[i].report|
    requires cfg.appSettings.adjustLastReadOnByOrigin && Orderly(inputs[..i + 1])
    ensures var s, report := ls[i].live, inputs[i].report;
            var ops := ReportOps(s.config, report, NewReportInfo(inputs[i].deviceName, inputs[i].originNanos));
            var tag := Absorb(TagBefore(Run(s, ops[..k]).state, report[k].EPC()), report[k], ops[k].info);
            loc in tag.stats ==> 0 <= ops[k].info.referenceTimestamp - tag.stats[loc].lastRead
  {
    assert inputs[..i + 1] == inputs[..i] + [inputs[i]];
    OrderlySnoc(inputs[..i], inputs[i]);
    hide IsRun, Run, Absorb, TagReportData.EPC, Adjust, NotAfter, Orderly, Latest;
    LoopNeverAhead(ls, inputs, cfg, i);
    LaterStill(ls[i].live, Latest(inputs[..i]) / 1_000_000, inputs[i].originNanos / 1_000_000);
    ElapsedInReport(ls[i].live, inputs[i].report, inputs[i].deviceName, inputs[i].originNanos, k, loc);
  }
}
