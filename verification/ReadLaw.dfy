/** What a single read does, in terms of the parameters the report carries and of what the inventory
    held before; and, over runs, the times it leaves behind. */
module ReadLaws {
  import opened Basics
  import opened Locations
  import opened CircularBuffers
  import opened MobilityProfiles
  import opened TagReports
  import opened Inventory
  import opened EventLog
  import opened TagHistories

  // ---- Which tag a read is about ----

  lemma ReadTouchesOneTag(s: InventoryState, rt: TagReportData, info: ReportInfo, key: string)
    requires key == Hex(if |rt.epc96| > 0 then rt.epc96 else rt.epcData)
    ensures rt.EPC() == key
    ensures Apply(s, ReadOp(rt, info)) == ReadOutcome(s, rt, info)
    ensures Apply(s, ReadOp(rt, info)).state.tags == s.tags[key := ReadTag(TagBefore(s, key), rt, info, s.config).tag]
    ensures Apply(s, ReadOp(rt, info)).events == ReadTag(TagBefore(s, key), rt, info, s.config).events
  {
    hide ReadTag;
  }

  /** A read is about the tag whose EPC is printed in hexadecimal from the 96-bit parameter, or from the
      variable-length one if that is empty: it is present afterwards, every event is about it, and no
      other tag changes. */
  lemma ReadConcernsOneTag(s: InventoryState, rt: TagReportData, info: ReportInfo, key: string)
    requires KeyedByEPC(s)
    requires key == Hex(if |rt.epc96| > 0 then rt.epc96 else rt.epcData)
    ensures var out := Apply(s, ReadOp(rt, info));
            && out.state.config == s.config
            && out.state.tags.Keys == s.tags.Keys + {key}
            && out.state.tags[key].epc == key && out.state.tags[key].state == Present
            && (forall e :: e in s.tags && e != key ==> out.state.tags[e] == s.tags[e])
            && |out.events| <= 1 && (forall i :: 0 <= i < |out.events| ==> out.events[i].epc == key)
  {
    ReadTouchesOneTag(s, rt, info, key);
    ReadKeepsIdentity(TagBefore(s, key), rt, info, s.config);
    hide ApplyRead, ProcessorConfig.Alias, TagReportData.EPC;
  }

  /** Two reads are about the same tag if and only if those bytes are the same. */
  lemma SameTagIffSameBytes(
      config: ProcessorConfig, rt: TagReportData, info: ReportInfo, rt': TagReportData, info': ReportInfo)
    ensures var s := InventoryState(map[], config);
            var bytes := if |rt.epc96| > 0 then rt.epc96 else rt.epcData;
            var bytes' := if |rt'.epc96| > 0 then rt'.epc96 else rt'.epcData;
            |Apply(Apply(s, ReadOp(rt, info)).state, ReadOp(rt', info')).state.tags.Keys| == 1 <==> bytes == bytes'
  {
    var s := InventoryState(map[], config);
    var bytes := if |rt.epc96| > 0 then rt.epc96 else rt.epcData;
    var bytes' := if |rt'.epc96| > 0 then rt'.epc96 else rt'.epcData;
    var key, key' := Hex(bytes), Hex(bytes');
    ReadConcernsOneTag(s, rt, info, key);
    var mid := Apply(s, ReadOp(rt, info)).state;
    ReadConcernsOneTag(mid, rt', info', key');
    hide Apply, Hex;
    if key == key' {
      HexInjective(bytes, bytes');
    }
    assert mid.tags.Keys == {key};
    OneOrTwo(key, key');
  }

  lemma OneOrTwo<T>(a: T, b: T)
    ensures |{a} + {b}| == 1 <==> a == b
  {
    if a != b {
      assert |{a} + {b}| == |{a}| + |{b}|;
    } else {
      assert {a} + {b} == {a};
    }
  }

  // ---- Times ----

  function LastReadAt(s: InventoryState, epc: string, loc: Location): int {
    if epc in s.tags && loc.String() in s.tags[epc].stats then s.tags[epc].stats[loc.String()].lastRead else 0
  }

  /** `after` is the later of the two. */
  ghost predicate IsLater(after: int, before: int, t: int) {
    before <= after && t <= after && (after == before || after == t)
  }

  lemma AbsorbTimes(tag: TagRecord, rt: TagReportData, info: ReportInfo)
    ensures LastSeenUTC !in rt.optional ==> Absorb(tag, rt, info).lastRead == tag.lastRead
    ensures LastSeenUTC in rt.optional ==>
              IsLater(Absorb(tag, rt, info).lastRead, tag.lastRead,
                      TruncDiv(rt.optional[LastSeenUTC] + info.offsetMicros, 1000))
  {
    hide TruncDiv, TagReportData.ExtractRSSI, TagReportData.ReadDataAsHex, Location.String, Record, GetStats;
  }

  lemma AbsorbTimesAt(tag: TagRecord, rt: TagReportData, info: ReportInfo, loc: Location)
    ensures var before, after := GetStats(tag.stats, loc.String()), GetStats(Absorb(tag, rt, info).stats, loc.String());
            if AntennaID in rt.optional && loc == Location(info.deviceName, rt.optional[AntennaID])
               && LastSeenUTC in rt.optional
            then IsLater(after.lastRead, before.lastRead,
                         TruncDiv(rt.optional[LastSeenUTC] + info.offsetMicros, 1000))
            else after.lastRead == before.lastRead
  {
    AbsorbWindow(tag, rt, info, loc);
    hide Absorb, TruncDiv, TagReportData.ExtractRSSI, Location.String, GetStats;
  }

  /** A read with a time stamps its tag, and the location of its antenna, with that time unless they
      know a later one already; it stamps no other location. */
  lemma ReadStamps(s: InventoryState, rt: TagReportData, info: ReportInfo, key: string, loc: Location)
    requires key == Hex(if |rt.epc96| > 0 then rt.epc96 else rt.epcData)
    ensures var s' := Apply(s, ReadOp(rt, info)).state;
            && key in s'.tags
            && (LastSeenUTC !in rt.optional ==>
                  LastReadOf(s', key) == LastReadOf(s, key) && LastReadAt(s', key, loc) == LastReadAt(s, key, loc))
            && (LastSeenUTC in rt.optional ==>
                  var t := TruncDiv(rt.optional[LastSeenUTC] + info.offsetMicros, 1000);
                  && IsLater(LastReadOf(s', key), LastReadOf(s, key), t)
                  && (if AntennaID in rt.optional && loc == Location(info.deviceName, rt.optional[AntennaID])
                      then IsLater(LastReadAt(s', key, loc), LastReadAt(s, key, loc), t)
                      else LastReadAt(s', key, loc) == LastReadAt(s, key, loc)))
  {
    var prev := TagBefore(s, key);
    ReadTouchesOneTag(s, rt, info, key);
    AbsorbTimes(prev, rt, info);
    AbsorbTimesAt(prev, rt, info, loc);
    hide Absorb, ChooseLocation, TruncDiv, ProcessorConfig.Alias, Location.String, TagReportData.EPC, IsLater;
    assert ReadTag(prev, rt, info, s.config).tag.stats == Absorb(prev, rt, info).stats;
    assert ReadTag(prev, rt, info, s.config).tag.lastRead == Absorb(prev, rt, info).lastRead;
  }

  /** `t` is the greatest of the times, or 0 if none is greater than that. */
  ghost predicate IsGreatest(t: int, times: seq<int>) {
    && 0 <= t && (t == 0 || t in times)
    && forall i :: 0 <= i < |times| ==> times[i] <= t
  }

  /** The time, if any, that an operation reads for a tag. */
  function OwnTime(op: Op, epc: string): Option<int> {
    if op.ReadOp? && Hex(if |op.rt.epc96| > 0 then op.rt.epc96 else op.rt.epcData) == epc
       && LastSeenUTC in op.rt.optional
    then Some(TruncDiv(op.rt.optional[LastSeenUTC] + op.info.offsetMicros, 1000))
    else None
  }

  /** The same, at one location. */
  function OwnTimeAt(op: Op, epc: string, loc: Location): Option<int> {
    if op.ReadOp? && AntennaID in op.rt.optional && loc == Location(op.info.deviceName, op.rt.optional[AntennaID])
    then OwnTime(op, epc)
    else None
  }

  function With(times: seq<int>, t: Option<int>): seq<int> {
    if t.Some? then times + [t.value] else times
  }

  ghost predicate Follows(after: int, before: int, t: Option<int>) {
    if t.Some? then IsLater(after, before, t.value) else after == before
  }

  lemma GreatestWith(after: int, before: int, times: seq<int>, t: Option<int>)
    requires IsGreatest(before, times) && Follows(after, before, t)
    ensures IsGreatest(after, With(times, t))
  {
  }

  /** The times of the reads that a run makes of a tag, since it was last stored anew. */
  function TimesRead(s: InventoryState, ops: seq<Op>, epc: string, before: seq<int>): seq<int> {
    if ops == [] then before
    else if epc !in Run(s, ops).state.tags then []
    else With(TimesRead(s, ops[..|ops| - 1], epc, before), OwnTime(ops[|ops| - 1], epc))
  }

  /** Those at one location, since the tag last departed. */
  function TimesReadAt(s: InventoryState, ops: seq<Op>, epc: string, loc: Location, before: seq<int>): seq<int> {
    if ops == [] then before
    else if epc !in Run(s, ops).state.tags || Run(s, ops).state.tags[epc].state == Departed then []
    else With(TimesReadAt(s, ops[..|ops| - 1], epc, loc, before), OwnTimeAt(ops[|ops| - 1], epc, loc))
  }

  lemma OwnReadFollows(s: InventoryState, rt: TagReportData, info: ReportInfo, epc: string, loc: Location)
    requires epc == Hex(if |rt.epc96| > 0 then rt.epc96 else rt.epcData)
    ensures var s', op := Apply(s, ReadOp(rt, info)).state, ReadOp(rt, info);
            && epc in s'.tags && s'.tags[epc].state == Present
            && Follows(LastReadOf(s', epc), LastReadOf(s, epc), OwnTime(op, epc))
            && Follows(LastReadAt(s', epc, loc), LastReadAt(s, epc, loc), OwnTimeAt(op, epc, loc))
  {
    ReadStamps(s, rt, info, epc, loc);
    ReadMakesPresent(s, rt, info, epc);
    hide Apply, LastReadOf, LastReadAt, TruncDiv, IsLater, Hex;
  }

  lemma ReadMakesPresent(s: InventoryState, rt: TagReportData, info: ReportInfo, key: string)
    requires key == Hex(if |rt.epc96| > 0 then rt.epc96 else rt.epcData)
    ensures var s' := Apply(s, ReadOp(rt, info)).state; key in s'.tags && s'.tags[key].state == Present
  {
    ReadTouchesOneTag(s, rt, info, key);
    ReadKeepsIdentity(TagBefore(s, key), rt, info, s.config);
    hide ApplyRead, ProcessorConfig.Alias, TagReportData.EPC;
  }

  /** Other operations than reads of the tag leave its times alone, but for departing and aging out. */
  lemma OtherOpsKeepTimes(s: InventoryState, op: Op, epc: string, loc: Location)
    requires AllWellKept(s)
    requires op.ReadOp? ==> Hex(if |op.rt.epc96| > 0 then op.rt.epc96 else op.rt.epcData) != epc
    ensures var s' := Apply(s, op).state;
            && (epc in s'.tags ==> epc in s.tags && LastReadOf(s', epc) == LastReadOf(s, epc))
            && (epc in s'.tags && s'.tags[epc].state == Departed ==> LastReadAt(s', epc, loc) == 0)
            && (epc in s'.tags && s'.tags[epc].state != Departed ==>
              LastReadAt(s', epc, loc) == LastReadAt(s, epc, loc))
  {
    StepKeepsWell(s, op);
    if op.ReadOp? {
      ReadTouchesOneTag(s, op.rt, op.info, op.rt.EPC());
    }
    assert epc in Apply(s, op).state.tags ==> WellKept(Apply(s, op).state.tags[epc]);
    hide ReadTag, Overdue, Expired, TagReportData.EPC, Location.String, ClocksKept, AllWellKept;
  }

  /** What an operation makes of the times of a tag that it leaves stored, and of one that it does not. */
  lemma TimesFollow(s: InventoryState, op: Op, epc: string, loc: Location)
    requires AllWellKept(s)
    ensures var s' := Apply(s, op).state;
            && (if epc !in s'.tags then LastReadOf(s', epc) == 0
                else Follows(LastReadOf(s', epc), LastReadOf(s, epc), OwnTime(op, epc)))
            && (if epc !in s'.tags || s'.tags[epc].state == Departed then LastReadAt(s', epc, loc) == 0
                else Follows(LastReadAt(s', epc, loc), LastReadAt(s, epc, loc), OwnTimeAt(op, epc, loc)))
  {
    if op.ReadOp? && Hex(if |op.rt.epc96| > 0 then op.rt.epc96 else op.rt.epcData) == epc {
      OwnReadFollows(s, op.rt, op.info, epc, loc);
      hide Apply, TruncDiv, AllWellKept, Hex, Location.String, Follows, LastReadOf, LastReadAt, OwnTime, OwnTimeAt;
    } else {
      OtherOpsKeepTimes(s, op, epc, loc);
      assert OwnTime(op, epc) == None && OwnTimeAt(op, epc, loc) == None;
      hide Apply, TruncDiv, AllWellKept, Hex, Location.String, OwnTime, OwnTimeAt;
    }
  }

  /** Over every run: a tag's last read is the greatest time read for it since it was stored anew, and
      the last read of a location the greatest read there since the tag last departed. */
  lemma {:induction false} LastReadIsGreatest(
      s: InventoryState, ops: seq<Op>, epc: string, loc: Location, before: seq<int>, beforeAt: seq<int>)
    requires AllWellKept(s)
    requires IsGreatest(LastReadOf(s, epc), before) && IsGreatest(LastReadAt(s, epc, loc), beforeAt)
    ensures IsGreatest(LastReadOf(Run(s, ops).state, epc), TimesRead(s, ops, epc, before))
    ensures IsGreatest(LastReadAt(Run(s, ops).state, epc, loc), TimesReadAt(s, ops, epc, loc, beforeAt))
  {
    if ops != [] {
      var init, op := ops[..|ops| - 1], ops[|ops| - 1];
      var mid, end := Run(s, init).state, Run(s, ops).state;
      assert end == Apply(mid, op).state;
      var times, at := TimesRead(s, init, epc, before), TimesReadAt(s, init, epc, loc, beforeAt);
      hide Apply, Run, LastReadOf, LastReadAt, IsGreatest, AllWellKept, TruncDiv, Hex, With, Follows, OwnTime, OwnTimeAt;
      LastReadIsGreatest(s, init, epc, loc, before, beforeAt);
      ClocksOverRuns(s, init, epc);
      TimesFollow(mid, op, epc, loc);
      NothingRead();
      if epc in end.tags {
        GreatestWith(LastReadOf(end, epc), LastReadOf(mid, epc), times, OwnTime(op, epc));
        if end.tags[epc].state != Departed {
          GreatestWith(LastReadAt(end, epc, loc), LastReadAt(mid, epc, loc), at, OwnTimeAt(op, epc, loc));
        }
      }
    }
  }

  lemma NothingRead()
    ensures IsGreatest(0, [])
  {
  }

  // ---- Windows, place and what else is learnt ----

  lemma SlidesToLast(recent: seq<real>, v: real)
    requires |recent| <= 20
    ensures Slide(recent, TAG_STATS_WINDOW_SIZE, v) == LastN(recent + [v], 20)
  {
  }

  /** A read records its RSSI at the location of its antenna, and nowhere else; 20 values are remembered. */
  lemma ReadRecords(s: InventoryState, rt: TagReportData, info: ReportInfo, key: string, loc: Location)
    requires AllWellKept(s)
    requires key == Hex(if |rt.epc96| > 0 then rt.epc96 else rt.epcData)
    ensures var s' := Apply(s, ReadOp(rt, info)).state;
            Recent(s', key, loc) ==
            if AntennaID in rt.optional && loc == Location(info.deviceName, rt.optional[AntennaID])
               && rt.ExtractRSSI().Some?
            then LastN(Recent(s, key, loc) + [rt.ExtractRSSI().value], 20)
            else Recent(s, key, loc)
  {
    ReadTouchesOneTag(s, rt, info, key);
    ReadWindow(s, rt, info, key, loc);
    assert |Recent(s, key, loc)| <= 20;
    hide ReadOutcome, TagReportData.EPC, TagReportData.ExtractRSSI, Location.String, Recent, AllWellKept, Slide,
      LastN, Hex;
    if rt.ExtractRSSI().Some? {
      SlidesToLast(Recent(s, key, loc), rt.ExtractRSSI().value);
    }
  }

  /** A tag is where it was read if it was nowhere before, or if nothing is remembered of where it was,
      or if it is heard at least twice where it was read and better there than the old place's mean plus
      the offset; a read without antenna leaves it where it was. */
  lemma ReadPlaces(s: InventoryState, rt: TagReportData, info: ReportInfo, key: string)
    requires key == Hex(if |rt.epc96| > 0 then rt.epc96 else rt.epcData)
    ensures var s' := Apply(s, ReadOp(rt, info)).state;
            var was := if key in s.tags then s.tags[key].location else Location("", 0);
            && key in s'.tags
            && s'.tags[key].location ==
               if AntennaID !in rt.optional then was
               else
                 var here := Location(info.deviceName, rt.optional[AntennaID]);
                 var old', new' := Recent(s', key, was), Recent(s', key, here);
                 if was == Location("", 0) || was == here || old' == [] then here
                 else if |new'| >= 2
                         && MeanOf(new') - MeanOf(old')
                            > s.config.profile.ComputeOffset(info.referenceTimestamp, LastReadAt(s, key, was))
                 then here
                 else was
  {
    var prev := TagBefore(s, key);
    ReadTouchesOneTag(s, rt, info, key);
    AbsorbTimesAt(prev, rt, info, prev.location);
    hide Absorb, MeanOf, ProcessorConfig.Alias, Location.String, TagReportData.EPC, MobilityProfile.ComputeOffset;
    var absorbed := Absorb(prev, rt, info);
    assert absorbed.location == prev.location by { AbsorbKeepsPlace(prev, rt, info); }
    assert ReadTag(prev, rt, info, s.config).tag.stats == absorbed.stats;
  }

  lemma AbsorbKeepsPlace(tag: TagRecord, rt: TagReportData, info: ReportInfo)
    ensures Absorb(tag, rt, info).location == tag.location
  {
  }

  /** The TID is that of a successful read of tag memory, in hexadecimal; an arrival is dated by the last
      read; a departure is not touched. */
  lemma ReadTeaches(s: InventoryState, rt: TagReportData, info: ReportInfo, key: string)
    requires key == Hex(if |rt.epc96| > 0 then rt.epc96 else rt.epcData)
    ensures var tag := Apply(s, ReadOp(rt, info)).state.tags[key];
            && tag.tid == (if rt.readResult.Some? && rt.readResult.value.resultType == 0
                           then Hex(BigEndian(rt.readResult.value.data))
                           else if key in s.tags then s.tags[key].tid else "")
            && tag.lastArrived ==
               (if key in s.tags && s.tags[key].state == Present then s.tags[key].lastArrived else tag.lastRead)
            && tag.lastDeparted == (if key in s.tags then s.tags[key].lastDeparted else 0)
  {
    var prev := TagBefore(s, key);
    ReadTouchesOneTag(s, rt, info, key);
    ReadKeepsIdentity(prev, rt, info, s.config);
    AbsorbLearnsTID(prev, rt, info);
    hide Absorb, ChooseLocation, ProcessorConfig.Alias, TagReportData.EPC;
  }

  lemma AbsorbLearnsTID(tag: TagRecord, rt: TagReportData, info: ReportInfo)
    ensures Absorb(tag, rt, info).tid ==
            if rt.readResult.Some? && rt.readResult.value.resultType == 0
            then Hex(BigEndian(rt.readResult.value.data)) else tag.tid
  {
    hide Hex, BigEndian;
  }

  // ---- The names of places ----

  /** A location is called by its alias if it has one that is not blank, and by its printed name if not. */
  ghost predicate Names(aliases: map<string, string>, loc: Location, place: string) {
    && (loc.String() in aliases && aliases[loc.String()] != "" ==> place == aliases[loc.String()])
    && (loc.String() !in aliases || aliases[loc.String()] == "" ==> place == loc.String())
  }

  lemma AliasNames(config: ProcessorConfig, loc: Location, place: string)
    ensures Names(config.aliases, loc, place) <==> place == config.Alias(loc)
  {
    hide Location.String;
  }

  /** The event of a read: an arrival, if the tag was not present; a move, if it was somewhere and the
      names of its old and its new place differ; and otherwise none. */
  lemma ReadAnnounces(
      s: InventoryState, rt: TagReportData, info: ReportInfo, key: string, oldPlace: string, newPlace: string)
    requires KeyedByEPC(s)
    requires key == Hex(if |rt.epc96| > 0 then rt.epc96 else rt.epcData)
    requires Names(s.config.aliases, if key in s.tags then s.tags[key].location else Location("", 0), oldPlace)
    requires key in Apply(s, ReadOp(rt, info)).state.tags
             && Names(s.config.aliases, Apply(s, ReadOp(rt, info)).state.tags[key].location, newPlace)
    ensures var out := Apply(s, ReadOp(rt, info));
            var tag := out.state.tags[key];
            out.events ==
            if key !in s.tags || s.tags[key].state != Present then [ArrivedEvent(key, tag.tid, tag.lastRead, newPlace)]
            else if s.tags[key].location == Location("", 0) || oldPlace == newPlace then []
            else [MovedEvent(key, tag.tid, tag.lastRead, oldPlace, newPlace)]
  {
    var prev := TagBefore(s, key);
    ReadTouchesOneTag(s, rt, info, key);
    ReadKeepsIdentity(prev, rt, info, s.config);
    AliasNames(s.config, prev.location, oldPlace);
    AliasNames(s.config, Apply(s, ReadOp(rt, info)).state.tags[key].location, newPlace);
    hide ApplyRead, ProcessorConfig.Alias, Names, TagReportData.EPC, Location.String;
  }

  /** The place of a departure is called in the same way. */
  lemma DepartureAnnounces(s: InventoryState, e: string, now: int, place: string)
    requires KeyedByEPC(s) && e in s.tags && Names(s.config.aliases, s.tags[e].location, place)
    ensures var out := Apply(s, DepartOp(e, now));
            out.events == [] ||
            out.events == [DepartedEvent(e, s.tags[e].tid, TruncDiv(now, 1_000_000), s.tags[e].lastRead, place)]
  {
    AliasNames(s.config, s.tags[e].location, place);
    hide Overdue, ProcessorConfig.Alias, Names, TruncDiv;
  }

  /** So without aliases a present tag that is somewhere raises a move exactly if its location changes,
      from one printed name to the other: two antennas of one device are two places. */
  lemma MovesAreTold(s: InventoryState, rt: TagReportData, info: ReportInfo, key: string)
    requires KeyedByEPC(s) && s.config.aliases == map[]
    requires key == Hex(if |rt.epc96| > 0 then rt.epc96 else rt.epcData)
    requires key in s.tags && s.tags[key].state == Present && s.tags[key].location != Location("", 0)
    ensures var out := Apply(s, ReadOp(rt, info));
            && key in out.state.tags
            && var was, tag := s.tags[key].location, out.state.tags[key];
               out.events == if tag.location == was then []
                             else [MovedEvent(key, tag.tid, tag.lastRead, was.String(), tag.location.String())]
  {
    ReadTouchesOneTag(s, rt, info, key);
    var was, loc := s.tags[key].location, Apply(s, ReadOp(rt, info)).state.tags[key].location;
    StringInjective(was, loc);
    hide Apply, Location.String, Hex;
    ReadAnnounces(s, rt, info, key, was.String(), loc.String());
  }
}
