/** The tag inventory as a value: what one read, one visit of a sweep or one configuration change
    does to it and which events it raises. The classes in TagProcessor.dfy are proved against it. */
module Inventory {
  import opened Basics
  import opened Locations
  import opened CircularBuffers
  import opened MobilityProfiles
  import opened TagReports

  // ---- Configuration and report metadata ----

  datatype ApplicationSettings = ApplicationSettings(
    mobilityProfileThreshold: real,
    mobilityProfileHoldoffMillis: real,
    mobilityProfileSlope: real,
    departedThresholdSeconds: nat,
    departedCheckIntervalSeconds: nat,
    ageOutHours: nat,
    adjustLastReadOnByOrigin: bool)
  {
    predicate Validate() {
      departedThresholdSeconds != 0 && departedCheckIntervalSeconds != 0 && ageOutHours != 0
    }
  }

  datatype CustomConfig = CustomConfig(appSettings: ApplicationSettings, aliases: map<string, string>)

  datatype ProcessorConfig = ProcessorConfig(
    profile: MobilityProfile,
    aliases: map<string, string>,
    departedThresholdSeconds: nat,
    ageOutHours: nat,
    adjustLastReadOnByOrigin: bool)
  {
    /** The user's name for a location, if there is one that is not blank. */
    function Alias(loc: Location): string {
      var name := loc.String();
      if name in aliases && aliases[name] != "" then aliases[name] else name
    }
  }

  function NewProcessorConfig(cfg: CustomConfig): ProcessorConfig {
    var s := cfg.appSettings;
    ProcessorConfig(
      NewMobilityProfile(s.mobilityProfileSlope, s.mobilityProfileThreshold, s.mobilityProfileHoldoffMillis),
      cfg.aliases - {""}, s.departedThresholdSeconds, s.ageOutHours, s.adjustLastReadOnByOrigin)
  }

  datatype ReportInfo = ReportInfo(deviceName: string, originNanos: int, offsetMicros: int, referenceTimestamp: int)

  function NewReportInfo(deviceName: string, originNanos: int): ReportInfo {
    ReportInfo(deviceName, originNanos, 0, TruncDiv(originNanos, 1_000_000))
  }

  /** The greatest last-seen time in a report, in microseconds; 0 if it has none. */
  function NewestSeen(report: seq<TagReportData>): (m: nat)
    ensures forall i :: 0 <= i < |report| && LastSeenUTC in report[i].optional ==> report[i].optional[LastSeenUTC] <= m
    ensures m > 0 ==> exists i :: 0 <= i < |report| && report[i].Get(LastSeenUTC) == Some(m)
  {
    if report == [] then 0
    else
      var k := |report| - 1;
      var m := NewestSeen(report[..k]);
      assert forall i :: 0 <= i < k ==> report[..k][i] == report[i];
      match report[k].Get(LastSeenUTC)
      case Some(t) => if t > m then assert report[k].Get(LastSeenUTC) == Some(t); t else m
      case None => m
  }

  /** With origin adjustment on, the report's clock is shifted so that its newest read falls on the origin. */
  function Adjust(config: ProcessorConfig, report: seq<TagReportData>, info: ReportInfo): ReportInfo {
    var newest := NewestSeen(report);
    if config.adjustLastReadOnByOrigin && newest > 0
    then info.(offsetMicros := TruncDiv(info.originNanos, 1000) - newest)
    else info
  }

  // ---- Tags ----

  datatype TagState = Unknown | Present | Departed

  const TAG_STATS_WINDOW_SIZE: nat := 20

  datatype StatsRecord = StatsRecord(lastRead: int, recent: seq<real>)

  datatype TagRecord = TagRecord(
    epc: string,
    tid: string,
    location: Location,
    lastRead: int,
    lastDeparted: int,
    lastArrived: int,
    state: TagState,
    stats: map<string, StatsRecord>)

  function NewTag(epc: string): TagRecord {
    TagRecord(epc, "", NOWHERE, 0, 0, 0, Unknown, map[])
  }

  datatype Event =
    | ArrivedEvent(epc: string, tid: string, timestamp: int, location: string)
    | MovedEvent(epc: string, tid: string, timestamp: int, oldLocation: string, newLocation: string)
    | DepartedEvent(epc: string, tid: string, timestamp: int, lastRead: int, lastKnownLocation: string)

  datatype InventoryState = InventoryState(tags: map<string, TagRecord>, config: ProcessorConfig)

  ghost predicate KeyedByEPC(s: InventoryState) {
    forall e :: e in s.tags ==> s.tags[e].epc == e
  }

  // ---- One read ----

  function Stamp(rt: TagReportData, info: ReportInfo): Option<int> {
    match rt.Get(LastSeenUTC)
    case Some(micros) => Some(TruncDiv(micros + info.offsetMicros, 1000))
    case None => None
  }

  function ReadLocation(rt: TagReportData, info: ReportInfo): Option<Location> {
    match rt.Get(AntennaID)
    case Some(antenna) => Some(Location(info.deviceName, antenna))
    case None => None
  }

  function GetStats(stats: map<string, StatsRecord>, location: string): StatsRecord {
    if location in stats then stats[location] else StatsRecord(0, [])
  }

  function Newer(known: int, stamp: Option<int>): int {
    if stamp.Some? && stamp.value > known then stamp.value else known
  }

  function Record(stats: StatsRecord, rssi: Option<real>, stamp: Option<int>): StatsRecord {
    StatsRecord(Newer(stats.lastRead, stamp),
                if rssi.Some? then Slide(stats.recent, TAG_STATS_WINDOW_SIZE, rssi.value) else stats.recent)
  }

  /** Everything a read teaches about a tag, before deciding where the tag now is. */
  function Absorb(tag: TagRecord, rt: TagReportData, info: ReportInfo): TagRecord {
    var stamp := Stamp(rt, info);
    var seen := tag.(tid := rt.ReadDataAsHex().GetOr(tag.tid), lastRead := Newer(tag.lastRead, stamp));
    match ReadLocation(rt, info)
    case None => seen
    case Some(loc) =>
      var name := loc.String();
      var stats := seen.stats[name := Record(GetStats(seen.stats, name), rt.ExtractRSSI(), stamp)];
      if tag.location.IsEmpty() || tag.location == loc then seen.(stats := stats)
      else
        var current := tag.location.String();
        seen.(stats := stats[current := GetStats(stats, current)])
  }

  /** A tag moves to the location it was read at if it has no other, if nothing is remembered of the
      other, or if it is heard there better than the other's mean plus the time-dependent offset. */
  function ChooseLocation(tag: TagRecord, rt: TagReportData, info: ReportInfo, profile: MobilityProfile): Location {
    match ReadLocation(rt, info)
    case None => tag.location
    case Some(loc) =>
      if tag.location.IsEmpty() || tag.location == loc then loc
      else
        var here, there := GetStats(tag.stats, tag.location.String()), GetStats(tag.stats, loc.String());
        if here.recent == [] then loc
        else if |there.recent| < 2 then tag.location
        else
          var offset := profile.ComputeOffset(info.referenceTimestamp, here.lastRead);
          if MeanOf(there.recent) > MeanOf(here.recent) + offset then loc
          else tag.location
  }

  function ApplyRead(tag: TagRecord, rt: TagReportData, info: ReportInfo, profile: MobilityProfile): TagRecord {
    var absorbed := Absorb(tag, rt, info);
    absorbed.(location := ChooseLocation(absorbed, rt, info, profile))
  }

  function TagBefore(s: InventoryState, epc: string): TagRecord {
    if epc in s.tags then s.tags[epc] else NewTag(epc)
  }

  datatype Outcome = Outcome(state: InventoryState, events: seq<Event>)

  datatype Settled = Settled(tag: TagRecord, events: seq<Event>)

  /** The change of state, and the event, that follow a read of a tag that was `prevState` at `prevLoc`. */
  function Settle(tag: TagRecord, prevState: TagState, prevLoc: Location, config: ProcessorConfig): Settled {
    var prevAlias, curAlias := config.Alias(prevLoc), config.Alias(tag.location);
    if prevState != Present then
      Settled(tag.(state := Present, lastArrived := tag.lastRead),
              [ArrivedEvent(tag.epc, tag.tid, tag.lastRead, curAlias)])
    else if prevLoc.IsEmpty() || prevLoc == tag.location || prevAlias == curAlias then
      Settled(tag, [])
    else
      Settled(tag, [MovedEvent(tag.epc, tag.tid, tag.lastRead, prevAlias, curAlias)])
  }

  function ReadTag(prev: TagRecord, rt: TagReportData, info: ReportInfo, config: ProcessorConfig): Settled {
    Settle(ApplyRead(prev, rt, info, config.profile), prev.state, prev.location, config)
  }

  function ReadOutcome(s: InventoryState, rt: TagReportData, info: ReportInfo): Outcome {
    var settled := ReadTag(TagBefore(s, rt.EPC()), rt, info, s.config);
    Outcome(s.(tags := s.tags[rt.EPC() := settled.tag]), settled.events)
  }

  // ---- One visit of a sweep ----

  predicate Overdue(tag: TagRecord, config: ProcessorConfig, nowNanos: int) {
    tag.state == Present
    && tag.lastRead < TruncDiv(nowNanos - config.departedThresholdSeconds * 1_000_000_000, 1_000_000)
  }

  function Depart(tag: TagRecord, nowNanos: int): TagRecord {
    tag.(state := Departed, lastDeparted := TruncDiv(nowNanos, 1_000_000), stats := map[])
  }

  function DepartureOf(tag: TagRecord, config: ProcessorConfig, nowNanos: int): Event {
    DepartedEvent(tag.epc, tag.tid, TruncDiv(nowNanos, 1_000_000), tag.lastRead, config.Alias(tag.location))
  }

  /** UnixMilli rounds down, unlike the division that the departure sweep uses. */
  predicate Expired(tag: TagRecord, config: ProcessorConfig, nowNanos: int) {
    tag.state == Departed && tag.lastRead < (nowNanos - config.ageOutHours * 3_600_000_000_000) / 1_000_000
  }

  // ---- Runs of operations ----

  /** One read of a report, one tag visited by a sweep, or one configuration change. */
  datatype Op =
    | ReadOp(rt: TagReportData, info: ReportInfo)
    | DepartOp(epc: string, nowNanos: int)
    | AgeOp(epc: string, nowNanos: int)
    | ConfigOp(cfg: CustomConfig)

  function Apply(s: InventoryState, op: Op): Outcome {
    match op
    case ReadOp(rt, info) => ReadOutcome(s, rt, info)
    case DepartOp(e, now) =>
      if e in s.tags && Overdue(s.tags[e], s.config, now)
      then Outcome(s.(tags := s.tags[e := Depart(s.tags[e], now)]), [DepartureOf(s.tags[e], s.config, now)])
      else Outcome(s, [])
    case AgeOp(e, now) =>
      if e in s.tags && Expired(s.tags[e], s.config, now)
      then Outcome(s.(tags := s.tags - {e}), [])
      else Outcome(s, [])
    case ConfigOp(cfg) => Outcome(s.(config := NewProcessorConfig(cfg)), [])
  }

  function Run(s: InventoryState, ops: seq<Op>): Outcome {
    if ops == [] then Outcome(s, [])
    else
      var before := Run(s, ops[..|ops| - 1]);
      var last := Apply(before.state, ops[|ops| - 1]);
      Outcome(last.state, before.events + last.events)
  }

  lemma RunSnoc(s: InventoryState, ops: seq<Op>, op: Op)
    ensures Run(s, ops + [op]) ==
            var before := Run(s, ops);
            var last := Apply(before.state, op);
            Outcome(last.state, before.events + last.events)
  {
    assert (ops + [op])[..|ops|] == ops;
  }

  lemma {:induction false} RunConcat(s: InventoryState, a: seq<Op>, b: seq<Op>)
    ensures Run(s, a + b) ==
            var first := Run(s, a);
            var second := Run(first.state, b);
            Outcome(second.state, first.events + second.events)
  {
    hide Apply;
    if b == [] {
      assert a + b == a;
    } else {
      hide Run;
      var init, op := b[..|b| - 1], b[|b| - 1];
      assert b == init + [op];
      RunConcat(s, a, init);
      var first := Run(s, a);
      var second := Run(first.state, init);
      RunSnoc(s, a + init, op);
      RunSnoc(first.state, init, op);
      Associates(a, init, [op]);
      Associates(first.events, second.events, Apply(second.state, op).events);
    }
  }

  lemma Associates<T>(a: seq<T>, b: seq<T>, c: seq<T>)
    ensures (a + b) + c == a + (b + c)
  {
  }

  function ReadOps(report: seq<TagReportData>, info: ReportInfo): seq<Op> {
    seq(|report|, i requires 0 <= i < |report| => ReadOp(report[i], info))
  }

  function ReportOps(config: ProcessorConfig, report: seq<TagReportData>, info: ReportInfo): seq<Op> {
    ReadOps(report, Adjust(config, report, info))
  }

  function DepartOps(order: seq<string>, nowNanos: int): seq<Op> {
    seq(|order|, i requires 0 <= i < |order| => DepartOp(order[i], nowNanos))
  }

  function AgeOps(order: seq<string>, nowNanos: int): seq<Op> {
    seq(|order|, i requires 0 <= i < |order| => AgeOp(order[i], nowNanos))
  }

  lemma SweepSnoc(order: seq<string>, e: string, nowNanos: int)
    ensures DepartOps(order + [e], nowNanos) == DepartOps(order, nowNanos) + [DepartOp(e, nowNanos)]
    ensures AgeOps(order + [e], nowNanos) == AgeOps(order, nowNanos) + [AgeOp(e, nowNanos)]
  {
  }

  lemma AgeSweepOn(
      s: InventoryState, order: seq<string>, e: string, nowNanos: int, mid: InventoryState, after: InventoryState)
    requires Run(s, AgeOps(order, nowNanos)) == Outcome(mid, [])
    requires Apply(mid, AgeOp(e, nowNanos)) == Outcome(after, [])
    ensures Run(s, AgeOps(order + [e], nowNanos)) == Outcome(after, [])
  {
    hide Run, Apply, AgeOps, DepartOps;
    SweepSnoc(order, e, nowNanos);
    RunSnoc(s, AgeOps(order, nowNanos), AgeOp(e, nowNanos));
  }

  /** `order` visits every key exactly once, as iterating over a Go map does. */
  ghost predicate Enumerates(order: seq<string>, keys: set<string>) {
    && (forall i :: 0 <= i < |order| ==> order[i] in keys)
    && (forall e :: e in keys ==> e in order)
    && (forall i, j :: 0 <= i < j < |order| ==> order[i] != order[j])
  }

  lemma EnumeratesSnoc(order: seq<string>, all: set<string>, remaining: set<string>, e: string)
    requires Enumerates(order, all - remaining) && e in remaining && remaining <= all
    ensures Enumerates(order + [e], all - (remaining - {e}))
  {
  }

  // ---- Snapshots ----

  datatype StaticTagStats = StaticTagStats(lastRead: int, meanRSSI: real)

  datatype StaticTag = StaticTag(
    epc: string,
    tid: string,
    location: Location,
    locationAlias: string,
    lastRead: int,
    lastArrived: int,
    lastDeparted: int,
    state: TagState,
    statsMap: map<string, StaticTagStats>)

  /** Locations without any RSSI value are left out of a snapshot. */
  function StaticStats(stats: map<string, StatsRecord>): map<string, StaticTagStats> {
    map loc | loc in stats && stats[loc].recent != [] ::
      StaticTagStats(stats[loc].lastRead, MeanOf(stats[loc].recent))
  }

  lemma StaticStatsStep(stats: map<string, StatsRecord>, remaining: set<string>, loc: string)
    requires loc in remaining && loc in stats
    ensures var done := StaticStats(stats - remaining);
            StaticStats(stats - (remaining - {loc})) ==
            if stats[loc].recent == [] then done
            else done[loc := StaticTagStats(stats[loc].lastRead, MeanOf(stats[loc].recent))]
  {
    assert stats - (remaining - {loc}) == (stats - remaining)[loc := stats[loc]];
  }

  function Static(tag: TagRecord, config: ProcessorConfig): StaticTag {
    StaticTag(tag.epc, tag.tid, tag.location, config.Alias(tag.location), tag.lastRead, tag.lastArrived,
              tag.lastDeparted, tag.state, StaticStats(tag.stats))
  }

  /** `snap` lists every tag exactly once, in some order. */
  ghost predicate IsSnapshot(snap: seq<StaticTag>, s: InventoryState) {
    && DistinctTags(snap)
    && (forall i :: 0 <= i < |snap| ==> snap[i].epc in s.tags && snap[i] == Static(s.tags[snap[i].epc], s.config))
    && (forall e :: e in s.tags ==> Lists(snap, e))
  }

  ghost predicate DistinctTags(snap: seq<StaticTag>) {
    forall i, j :: 0 <= i < j < |snap| ==> snap[i].epc != snap[j].epc
  }

  ghost predicate Lists(snap: seq<StaticTag>, epc: string) {
    exists i :: 0 <= i < |snap| && snap[i].epc == epc
  }

  function Loaded(saved: StaticTagStats): StatsRecord {
    StatsRecord(saved.lastRead, [saved.meanRSSI])
  }

  /** Restoring keeps one value per location: the mean the snapshot recorded. */
  function FromStatic(t: StaticTag): TagRecord {
    TagRecord(t.epc, t.tid, t.location, t.lastRead, t.lastDeparted, t.lastArrived, t.state,
              map loc | loc in t.statsMap :: Loaded(t.statsMap[loc]))
  }

  function RestoreTags(snap: seq<StaticTag>): map<string, TagRecord> {
    if snap == [] then map[]
    else RestoreTags(snap[..|snap| - 1])[snap[|snap| - 1].epc := FromStatic(snap[|snap| - 1])]
  }

  function Restore(snap: seq<StaticTag>, cfg: CustomConfig): InventoryState {
    InventoryState(RestoreTags(snap), NewProcessorConfig(cfg))
  }
}
