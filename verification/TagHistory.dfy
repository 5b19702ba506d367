/** What the inventory remembers of each tag, over every run: clocks, and the RSSI window of each location. */
module TagHistories {
  import opened Basics
  import opened Locations
  import opened CircularBuffers
  import opened TagReports
  import opened Inventory
  import opened EventLog

  // ---- The clocks of one tag ----

  ghost predicate ClocksKept(tag: TagRecord) {
    && 0 <= tag.lastRead && tag.lastArrived <= tag.lastRead
    && (forall k :: k in tag.stats ==> 0 <= tag.stats[k].lastRead <= tag.lastRead)
    && (forall k :: k in tag.stats ==> |tag.stats[k].recent| <= TAG_STATS_WINDOW_SIZE)
  }

  ghost predicate WellKept(tag: TagRecord) {
    && tag.state != Unknown
    && ClocksKept(tag)
    && (tag.state == Departed ==> tag.lastRead < tag.lastDeparted && tag.stats == map[])
  }

  ghost predicate AllWellKept(s: InventoryState) {
    forall e :: e in s.tags ==> WellKept(s.tags[e])
  }

  lemma AbsorbKeepsClocks(tag: TagRecord, rt: TagReportData, info: ReportInfo)
    requires ClocksKept(tag)
    ensures ClocksKept(Absorb(tag, rt, info))
    ensures tag.lastRead <= Absorb(tag, rt, info).lastRead
  {
    hide Stamp, TagReportData.ExtractRSSI, TagReportData.ReadDataAsHex, Location.String;
  }

  lemma ReadKeepsWell(tag: TagRecord, rt: TagReportData, info: ReportInfo, config: ProcessorConfig)
    requires ClocksKept(tag)
    ensures WellKept(ReadTag(tag, rt, info, config).tag)
    ensures tag.lastRead <= ReadTag(tag, rt, info, config).tag.lastRead
  {
    AbsorbKeepsClocks(tag, rt, info);
    ReadKeepsIdentity(tag, rt, info, config);
    hide Absorb, ChooseLocation, ProcessorConfig.Alias;
    if tag.state != Present {
      assert ReadTag(tag, rt, info, config).tag.state == Present;
    }
  }

  lemma DepartKeepsWell(tag: TagRecord, config: ProcessorConfig, nowNanos: int)
    requires WellKept(tag) && Overdue(tag, config, nowNanos)
    ensures WellKept(Depart(tag, nowNanos))
  {
  }

  /** One operation keeps every tag's clocks, and never turns a stored tag's last read back. */
  lemma StepKeepsWell(s: InventoryState, op: Op)
    requires AllWellKept(s)
    ensures AllWellKept(Apply(s, op).state)
    ensures forall e :: e in s.tags && e in Apply(s, op).state.tags ==>
              s.tags[e].lastRead <= Apply(s, op).state.tags[e].lastRead
  {
    match op {
      case ReadOp(rt, info) =>
        var prev := TagBefore(s, rt.EPC());
        ReadKeepsWell(prev, rt, info, s.config);
        hide ReadTag, WellKept, TagReportData.EPC;
      case DepartOp(e, now) =>
        if e in s.tags && Overdue(s.tags[e], s.config, now) {
          DepartKeepsWell(s.tags[e], s.config, now);
        }
        hide WellKept, Overdue;
      case AgeOp(e, now) =>
      case ConfigOp(cfg) =>
    }
  }

  /** The tag is in the inventory at every point of the run. */
  ghost predicate StaysStored(s: InventoryState, ops: seq<Op>, epc: string) {
    forall i :: 0 <= i <= |ops| ==> epc in Run(s, ops[..i]).state.tags
  }

  function LastReadOf(s: InventoryState, epc: string): int {
    if epc in s.tags then s.tags[epc].lastRead else 0
  }

  /** Over every run: no stored tag is Unknown, its last read is never before its last arrival nor
      before the last read of any of its locations, and while it is departed it was last read before
      its departure and remembers no statistics. A tag that stays stored never loses its last read. */
  lemma {:induction false} ClocksOverRuns(s: InventoryState, ops: seq<Op>, epc: string)
    requires AllWellKept(s)
    ensures AllWellKept(Run(s, ops).state)
    ensures StaysStored(s, ops, epc) ==> LastReadOf(s, epc) <= LastReadOf(Run(s, ops).state, epc)
  {
    hide Apply, AllWellKept;
    assert ops[..|ops|] == ops;
    if ops != [] {
      var init := ops[..|ops| - 1];
      ClocksOverRuns(s, init, epc);
      StepKeepsWell(Run(s, init).state, ops[|ops| - 1]);
      assert forall i :: 0 <= i <= |init| ==> init[..i] == ops[..i];
      assert init[..|init|] == init;
    }
  }

  /** An event says what the inventory holds of its tag once the event is raised: an arrival and a
      move are stamped with the last read, an arrival being also the last arrival; a departure is
      stamped with the time of the sweep, which is later than the last read it reports. */
  lemma EventsReportTheTag(s: InventoryState, op: Op)
    requires KeyedByEPC(s) && AllWellKept(s)
    ensures forall i :: 0 <= i < |Apply(s, op).events| ==>
              var ev, after := Apply(s, op).events[i], Apply(s, op).state;
              && ev.epc in after.tags
              && var tag := after.tags[ev.epc];
              && ev.tid == tag.tid
              && (match ev
                  case ArrivedEvent(_, _, time, location) =>
                    && tag.state == Present && time == tag.lastArrived == tag.lastRead
                    && location == after.config.Alias(tag.location)
                  case MovedEvent(_, _, time, _, newLocation) =>
                    tag.state == Present && time == tag.lastRead && newLocation == after.config.Alias(tag.location)
                  case DepartedEvent(_, _, time, lastRead, location) =>
                    tag.state == Departed && time == tag.lastDeparted > lastRead == tag.lastRead
                    && location == after.config.Alias(tag.location))
  {
    hide ApplyRead, TagReportData.EPC, ProcessorConfig.Alias;
    ApplyKeepsKeys(s, op);
    match op {
      case ReadOp(rt, info) =>
        ReadKeepsIdentity(TagBefore(s, rt.EPC()), rt, info, s.config);
      case DepartOp(e, now) =>
        if e in s.tags && Overdue(s.tags[e], s.config, now) {
          DepartKeepsWell(s.tags[e], s.config, now);
        }
      case AgeOp(e, now) =>
      case ConfigOp(cfg) =>
    }
  }

  // ---- The RSSI window of one tag at one location ----

  function Recent(s: InventoryState, epc: string, loc: Location): seq<real> {
    if epc in s.tags then GetStats(s.tags[epc].stats, loc.String()).recent else []
  }

  /** All tags are well kept, and this one remembers only values between `lo` and `hi`. */
  ghost predicate KeptInBand(s: InventoryState, epc: string, lo: real, hi: real) {
    && AllWellKept(s)
    && forall loc :: InBand(Recent(s, epc, loc), lo, hi)
  }

  /** The RSSI values that reads of this tag at exactly this location carried since it last departed
      (or since the start of the run, with `before` heard earlier). */
  function Heard(s: InventoryState, ops: seq<Op>, epc: string, loc: Location, before: seq<real>): seq<real> {
    if ops == [] then before
    else
      var init, op := ops[..|ops| - 1], ops[|ops| - 1];
      var h, mid := Heard(s, init, epc, loc, before), Run(s, init).state;
      match op
      case ReadOp(rt, info) =>
        if rt.EPC() == epc && ReadLocation(rt, info) == Some(loc) && rt.ExtractRSSI().Some?
        then h + [rt.ExtractRSSI().value]
        else h
      case DepartOp(e, now) => if e == epc && e in mid.tags && Overdue(mid.tags[e], mid.config, now) then [] else h
      case AgeOp(e, now) => if e == epc && e in mid.tags && Expired(mid.tags[e], mid.config, now) then [] else h
      case ConfigOp(_) => h
  }

  /** A read adds to the window of the location it was made at, and to no other. */
  lemma AbsorbWindow(tag: TagRecord, rt: TagReportData, info: ReportInfo, loc: Location)
    ensures var before, after := GetStats(tag.stats, loc.String()), GetStats(Absorb(tag, rt, info).stats, loc.String());
            after ==
            if ReadLocation(rt, info) == Some(loc) then Record(before, rt.ExtractRSSI(), Stamp(rt, info)) else before
  {
    hide TagReportData.ExtractRSSI, TagReportData.ReadDataAsHex, Location.String, Record, Stamp;
    if ReadLocation(rt, info).Some? {
      StringInjective(ReadLocation(rt, info).value, loc);
    }
    StringInjective(tag.location, loc);
  }

  lemma ReadWindow(s: InventoryState, rt: TagReportData, info: ReportInfo, epc: string, loc: Location)
    ensures var before, after := Recent(s, epc, loc), Recent(ReadOutcome(s, rt, info).state, epc, loc);
            after ==
            if rt.EPC() == epc && ReadLocation(rt, info) == Some(loc) && rt.ExtractRSSI().Some?
            then Slide(before, TAG_STATS_WINDOW_SIZE, rt.ExtractRSSI().value)
            else before
  {
    var prev := TagBefore(s, rt.EPC());
    AbsorbWindow(prev, rt, info, loc);
    hide Absorb, ChooseLocation, TagReportData.EPC, TagReportData.ExtractRSSI, ProcessorConfig.Alias, Slide,
      Location.String, ReadLocation;
  }

  /** Over every run, the window kept for a tag at a location is exactly the last twenty values heard
      there since the tag last departed: no two locations ever share a history. */
  lemma {:induction false} WindowIsWhatWasHeard(
      s: InventoryState, ops: seq<Op>, epc: string, loc: Location, before: seq<real>)
    requires Recent(s, epc, loc) == LastN(before, TAG_STATS_WINDOW_SIZE)
    ensures Recent(Run(s, ops).state, epc, loc) == LastN(Heard(s, ops, epc, loc, before), TAG_STATS_WINDOW_SIZE)
    ensures TAG_STATS_WINDOW_SIZE == 20
  {
    if ops != [] {
      var init, op := ops[..|ops| - 1], ops[|ops| - 1];
      WindowIsWhatWasHeard(s, init, epc, loc, before);
      var mid := Run(s, init).state;
      match op {
        case ReadOp(rt, info) =>
          ReadWindow(mid, rt, info, epc, loc);
          hide ReadOutcome, Recent, TagReportData.EPC, TagReportData.ExtractRSSI, Slide, ReadLocation, LastN;
          if rt.ExtractRSSI().Some? {
            SlideKeepsLastN(Heard(s, init, epc, loc, before), TAG_STATS_WINDOW_SIZE, rt.ExtractRSSI().value);
          }
        case DepartOp(e, now) =>
          hide Overdue;
        case AgeOp(e, now) =>
          hide Expired;
        case ConfigOp(_) =>
      }
    }
  }
}
