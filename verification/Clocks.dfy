/** Timestamps under origin adjustment: every read is placed at or before the report's reference time. */
module Clocks {
  import opened Basics
  import opened Locations
  import opened TagReports
  import opened Inventory
  import opened Actions

  const INT64: int := 0x8000_0000_0000_0000

  /** The report as the processor sees it when origin adjustment is on. */
  function Adjusted(config: ProcessorConfig, report: seq<TagReportData>, device: string, origin: int): ReportInfo {
    Adjust(config, report, NewReportInfo(device, origin))
  }

  /** The newest read of a report is stamped exactly with the reference time, every other read no
      later, and the order of the reads is kept. Nothing on the way leaves the 64-bit range. */
  lemma AdjustedStamps(config: ProcessorConfig, report: seq<TagReportData>, device: string, origin: int, i: nat, j: nat)
    requires config.adjustLastReadOnByOrigin && 0 <= origin < INT64
    requires i < |report| && j < |report|
    requires LastSeenUTC in report[i].optional && LastSeenUTC in report[j].optional
    ensures var info := Adjusted(config, report, device, origin);
            var seen, stamp := report[i].optional[LastSeenUTC], Stamp(report[i], info).value;
            && info.referenceTimestamp == origin / 1_000_000
            && -INT64 <= seen + info.offsetMicros < INT64
            && stamp <= info.referenceTimestamp
            && (seen == NewestSeen(report) > 0 ==> stamp == info.referenceTimestamp)
            && (seen <= report[j].optional[LastSeenUTC] ==> stamp <= Stamp(report[j], info).value)
  {
    var info := Adjusted(config, report, device, origin);
    var newest, o := NewestSeen(report), info.offsetMicros;
    var x, y := report[i].optional[LastSeenUTC], report[j].optional[LastSeenUTC];
    assert InRange(LastSeenUTC, x) && InRange(LastSeenUTC, y);
    assert x <= newest && y <= newest;
    NewestIsSome(report);
    hide TruncDiv, NewestSeen;
    StampArithmetic(x, y, newest, o, origin);
  }

  lemma StampArithmetic(x: nat, y: nat, newest: nat, o: int, origin: nat)
    requires x <= newest && y <= newest
    requires o == if newest > 0 then TruncDiv(origin, 1000) - newest else 0
    ensures TruncDiv(x + o, 1000) <= TruncDiv(origin, 1_000_000) == origin / 1_000_000
    ensures x == newest > 0 ==> TruncDiv(x + o, 1000) == origin / 1_000_000
    ensures x <= y ==> TruncDiv(x + o, 1000) <= TruncDiv(y + o, 1000)
    ensures 0 <= newest + x + o && (x + o <= origin || x + o <= newest)
  {
    NestedDivision(origin);
    TruncDivThousand(x + o, y + o);
    TruncDivThousand(x + o, newest + o);
  }

  lemma NewestIsSome(report: seq<TagReportData>)
    ensures NewestSeen(report) < INT64
  {
    if NewestSeen(report) > 0 {
      var i :| 0 <= i < |report| && report[i].Get(LastSeenUTC) == Some(NewestSeen(report));
      assert InRange(LastSeenUTC, report[i].optional[LastSeenUTC]);
    }
  }

  lemma NestedDivision(n: nat)
    ensures n / 1000 / 1000 == n / 1_000_000
  {
  }

  lemma TruncDivThousand(a: int, b: int)
    ensures a <= b ==> TruncDiv(a, 1000) <= TruncDiv(b, 1000)
  {
  }

  // ---- Over whole runs ----

  /** Nothing remembered of any tag is later than `t`. */
  ghost predicate NotAfter(s: InventoryState, t: int) {
    forall e :: e in s.tags ==> TagNotAfter(s.tags[e], t)
  }

  ghost predicate TagNotAfter(tag: TagRecord, t: int) {
    tag.lastRead <= t && forall k :: k in tag.stats ==> tag.stats[k].lastRead <= t
  }

  lemma AbsorbNotAfter(tag: TagRecord, rt: TagReportData, info: ReportInfo, t: int)
    requires 0 <= t && TagNotAfter(tag, t)
    requires Stamp(rt, info).Some? ==> Stamp(rt, info).value <= t
    ensures TagNotAfter(Absorb(tag, rt, info), t)
  {
    hide Stamp, TagReportData.ExtractRSSI, TagReportData.ReadDataAsHex, Location.String;
  }

  lemma StepNotAfter(s: InventoryState, op: Op, t: int)
    requires 0 <= t && NotAfter(s, t)
    requires op.ReadOp? && Stamp(op.rt, op.info).Some? ==> Stamp(op.rt, op.info).value <= t
    ensures NotAfter(Apply(s, op).state, t)
  {
    match op {
      case ReadOp(rt, info) =>
        AbsorbNotAfter(TagBefore(s, rt.EPC()), rt, info, t);
        hide Absorb, ChooseLocation, TagReportData.EPC, ProcessorConfig.Alias;
      case DepartOp(e, now) =>
        hide Overdue;
      case AgeOp(e, now) =>
      case ConfigOp(cfg) =>
    }
  }

  lemma {:induction false} RunNotAfter(s: InventoryState, ops: seq<Op>, t: int)
    requires 0 <= t && NotAfter(s, t)
    requires forall i :: 0 <= i < |ops| && ops[i].ReadOp? && Stamp(ops[i].rt, ops[i].info).Some? ==>
               Stamp(ops[i].rt, ops[i].info).value <= t
    ensures NotAfter(Run(s, ops).state, t)
  {
    hide Apply, NotAfter, Stamp;
    if ops != [] {
      var n := |ops| - 1;
      RunNotAfter(s, ops[..n], t);
      StepNotAfter(Run(s, ops[..n]).state, ops[n], t);
    }
  }

  lemma ReportStamps(config: ProcessorConfig, report: seq<TagReportData>, device: string, origin: int, k: nat)
    requires config.adjustLastReadOnByOrigin && 0 <= origin < INT64 && k < |report|
    ensures var s := Stamp(report[k], Adjusted(config, report, device, origin));
            s.Some? ==> s.value <= origin / 1_000_000
  {
    if LastSeenUTC in report[k].optional {
      AdjustedStamps(config, report, device, origin, k, k);
    }
  }

  /** A report under adjustment brings nothing later than its own reference time. */
  lemma ReportNotAfter(s: InventoryState, report: seq<TagReportData>, device: string, origin: int, k: nat)
    requires s.config.adjustLastReadOnByOrigin && 0 <= origin < INT64 && NotAfter(s, origin / 1_000_000)
    requires k <= |report|
    ensures NotAfter(Run(s, ReportOps(s.config, report, NewReportInfo(device, origin))[..k]).state, origin / 1_000_000)
  {
    hide Apply, NotAfter, Adjust, Stamp;
    var ops := ReportOps(s.config, report, NewReportInfo(device, origin));
    forall i | 0 <= i < k
      ensures Stamp(ops[..k][i].rt, ops[..k][i].info).Some? ==>
                Stamp(ops[..k][i].rt, ops[..k][i].info).value <= origin / 1_000_000
    {
      ReportStamps(s.config, report, device, origin, i);
    }
    RunNotAfter(s, ops[..k], origin / 1_000_000);
  }

  /** Whichever read of a report is being processed, the elapsed time that the mobility profile is
      asked about is never negative. */
  lemma ElapsedInReport(
      s: InventoryState, report: seq<TagReportData>, device: string, origin: int, k: nat, loc: string)
    requires s.config.adjustLastReadOnByOrigin && 0 <= origin < INT64 && NotAfter(s, origin / 1_000_000)
    requires k < |report|
    ensures var ops := ReportOps(s.config, report, NewReportInfo(device, origin));
            var tag := Absorb(TagBefore(Run(s, ops[..k]).state, report[k].EPC()), report[k], ops[k].info);
            loc in tag.stats ==> 0 <= ops[k].info.referenceTimestamp - tag.stats[loc].lastRead
  {
    ReportNotAfter(s, report, device, origin, k);
    ReportStamps(s.config, report, device, origin, k);
    ReferenceKept(s.config, report, device, origin);
    hide Apply, Adjust, Stamp, Run, Absorb, TagReportData.EPC;
    var ops := ReportOps(s.config, report, NewReportInfo(device, origin));
    var before := Run(s, ops[..k]).state;
    AbsorbNotAfter(TagBefore(before, report[k].EPC()), report[k], ops[k].info, origin / 1_000_000);
  }

  lemma ReferenceKept(config: ProcessorConfig, report: seq<TagReportData>, device: string, origin: int)
    requires 0 <= origin
    ensures Adjusted(config, report, device, origin).referenceTimestamp == origin / 1_000_000
  {
  }

  /** Adjustment is on and stays on; origins start from `since` and never go back. */
  ghost predicate OrderedOrigins(acts: seq<Action>, since: int) {
    && 0 <= since
    && (forall i :: 0 <= i < |acts| && acts[i].UpdateConfig? ==> acts[i].cfg.appSettings.adjustLastReadOnByOrigin)
    && (forall i :: 0 <= i < |acts| && acts[i].Report? ==> since <= acts[i].originNanos < INT64)
    && (forall i, j :: 0 <= i < j < |acts| && acts[i].Report? && acts[j].Report? ==>
          acts[i].originNanos <= acts[j].originNanos)
  }

  /** The origin of the latest report of a run. */
  function LatestOrigin(acts: seq<Action>, since: int): int {
    if acts == [] then since
    else
      var last := acts[|acts| - 1];
      if last.Report? then last.originNanos else LatestOrigin(acts[..|acts| - 1], since)
  }

  lemma {:induction false} OriginsOrdered(acts: seq<Action>, since: int)
    requires OrderedOrigins(acts, since)
    ensures since <= LatestOrigin(acts, since)
    ensures acts != [] ==> LatestOrigin(acts[..|acts| - 1], since) <= LatestOrigin(acts, since)
    ensures LatestOrigin(acts, since) == since
            || exists i :: 0 <= i < |acts| && acts[i].Report? && acts[i].originNanos == LatestOrigin(acts, since)
  {
    if acts != [] {
      OriginsOrdered(acts[..|acts| - 1], since);
    }
  }

  lemma LaterStill(s: InventoryState, t: int, t': int)
    requires NotAfter(s, t) && t <= t'
    ensures NotAfter(s, t')
  {
  }

  /** One action under adjustment, with an origin that is not older than anything remembered. */
  lemma ActionNotAfter(s: InventoryState, a: Action, origin: int)
    requires s.config.adjustLastReadOnByOrigin && 0 <= origin && NotAfter(s, origin / 1_000_000)
    requires a.Report? ==> origin <= a.originNanos < INT64
    requires a.UpdateConfig? ==> a.cfg.appSettings.adjustLastReadOnByOrigin
    ensures var after := Run(s, OpsOf(s.config, a)).state;
            && NotAfter(after, (if a.Report? then a.originNanos else origin) / 1_000_000)
            && after.config.adjustLastReadOnByOrigin
  {
    hide Apply, NotAfter, Adjust, Stamp;
    var ops := OpsOf(s.config, a);
    AdjustmentStaysOn(s, ops);
    if a.Report? {
      assert ops[..|ops|] == ops;
      LaterStill(s, origin / 1_000_000, a.originNanos / 1_000_000);
      ReportNotAfter(s, a.report, a.deviceName, a.originNanos, |a.report|);
    } else {
      RunNotAfter(s, ops, origin / 1_000_000);
    }
  }

  lemma {:induction false} AdjustmentStaysOn(s: InventoryState, ops: seq<Op>)
    requires s.config.adjustLastReadOnByOrigin
    requires forall i :: 0 <= i < |ops| && ops[i].ConfigOp? ==> ops[i].cfg.appSettings.adjustLastReadOnByOrigin
    ensures Run(s, ops).state.config.adjustLastReadOnByOrigin
  {
    hide ReadTag;
    if ops != [] {
      AdjustmentStaysOn(s, ops[..|ops| - 1]);
    }
  }

  /** Over every such run, from an inventory that knows nothing later than `since`, nothing remembered is
      later than the latest report's reference time. */
  lemma {:induction false} NothingFromTheFuture(s: InventoryState, acts: seq<Action>, since: int)
    requires s.config.adjustLastReadOnByOrigin && OrderedOrigins(acts, since) && NotAfter(s, since / 1_000_000)
    ensures NotAfter(Exec(s, acts).state, LatestOrigin(acts, since) / 1_000_000)
    ensures Exec(s, acts).state.config.adjustLastReadOnByOrigin
  {
    hide Run, OpsOf, NotAfter;
    if acts != [] {
      var init, last := acts[..|acts| - 1], acts[|acts| - 1];
      NothingFromTheFuture(s, init, since);
      OriginsOrdered(init, since);
      OriginsOrdered(acts, since);
      ActionNotAfter(Exec(s, init).state, last, LatestOrigin(init, since));
    }
  }

  /** So no read of a further report, with an origin that is not older, ever asks the mobility profile
      about a negative time. */
  lemma ElapsedNeverNegative(s: InventoryState, acts: seq<Action>, since: int, next: Action, k: nat, loc: string)
    requires s.config.adjustLastReadOnByOrigin && OrderedOrigins(acts + [next], since) && NotAfter(s, since / 1_000_000)
    requires next.Report? && k < |next.report|
    ensures var mid := Exec(s, acts).state;
            var ops := OpsOf(mid.config, next);
            var tag := Absorb(TagBefore(Run(mid, ops[..k]).state, next.report[k].EPC()), next.report[k], ops[k].info);
            loc in tag.stats ==> 0 <= ops[k].info.referenceTimestamp - tag.stats[loc].lastRead
  {
    var all := acts + [next];
    assert all[..|all| - 1] == acts && all[|all| - 1] == next;
    assert forall i :: 0 <= i < |acts| ==> acts[i] == all[i];
    OriginsOrdered(all, since);
    hide Run, Absorb, TagReportData.EPC, Adjust, NotAfter;
    NothingFromTheFuture(s, acts, since);
    LaterStill(Exec(s, acts).state, LatestOrigin(acts, since) / 1_000_000, next.originNanos / 1_000_000);
    ElapsedInReport(Exec(s, acts).state, next.report, next.deviceName, next.originNanos, k, loc);
  }
}
