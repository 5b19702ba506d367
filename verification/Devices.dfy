/** What a reader can do, and how the closest match to a desired behaviour is chosen: transmit
    power, frequency and RF mode. */
module Devices {
  import opened Basics

  type int16 = x: int | -0x8000 <= x < 0x8000

  datatype ModeEntry = ModeEntry(
    modeID: uint32,
    modulation: uint8,
    spectralMask: uint8,
    backscatterDataRate: uint32,
    pieRatio: uint32,
    minTariTime: uint32)

  datatype PowerEntry = PowerEntry(index: uint16, value: int16)

  datatype HopTable = HopTable(hopTableID: uint8, frequencies: seq<uint32>)

  datatype FrequencyInformation =
    FrequencyInformation(hopping: bool, hopTables: seq<HopTable>, fixedFrequencies: Option<seq<uint32>>)

  /** The parts of the capabilities response that matter here. */
  datatype Capabilities = Capabilities(
    powerLevels: seq<PowerEntry>,
    modes: seq<ModeEntry>,
    freqInfo: FrequencyInformation,
    numGPIs: uint16)

  datatype Device = Device(
    modes: seq<ModeEntry>,
    pwrMinToMax: seq<PowerEntry>,
    freqInfo: FrequencyInformation,
    nFreqs: uint16,
    nGPIs: uint16)

  datatype DeviceError = MissingCapInfo | ImpossibleTableLength

  // ---- Power ----

  ghost predicate SortedUpTo(s: seq<PowerEntry>, n: nat)
    requires n <= |s|
  {
    forall i, j :: 0 <= i < j < n ==> s[i].value <= s[j].value
  }

  ghost predicate SortedByPower(s: seq<PowerEntry>) {
    SortedUpTo(s, |s|)
  }

  lemma SortedSnoc(s: seq<PowerEntry>, n: nat)
    requires n < |s|
    ensures SortedUpTo(s, n + 1) <==> SortedUpTo(s, n) && (n > 0 ==> s[n - 1].value <= s[n].value)
  {
  }

  function Insert(s: seq<PowerEntry>, e: PowerEntry): (r: seq<PowerEntry>)
    ensures |r| == |s| + 1
    ensures r[|s|] == e || (s != [] && r[|s|] == s[|s| - 1])
  {
    if s == [] || s[|s| - 1].value <= e.value then s + [e]
    else Insert(s[..|s| - 1], e) + [s[|s| - 1]]
  }

  lemma {:induction false} InsertAdds(s: seq<PowerEntry>, e: PowerEntry)
    ensures multiset(Insert(s, e)) == multiset(s) + multiset{e}
  {
    if s != [] && s[|s| - 1].value > e.value {
      var init, last := s[..|s| - 1], s[|s| - 1];
      InsertAdds(init, e);
      assert s == init + [last];
    }
  }

  /** A last element that bounds the others keeps the order. */
  lemma SortedWithLast(s: seq<PowerEntry>, last: PowerEntry)
    requires SortedByPower(s) && forall x :: x in s ==> x.value <= last.value
    ensures SortedByPower(s + [last])
  {
    var r := s + [last];
    forall i, j | 0 <= i < j < |r|
      ensures r[i].value <= r[j].value
    {
      assert r[i] == s[i] && r[i] in s;
      if j < |s| {
        assert r[j] == s[j];
      }
    }
  }

  lemma {:induction false} InsertKeepsOrder(s: seq<PowerEntry>, e: PowerEntry)
    requires SortedByPower(s)
    ensures SortedByPower(Insert(s, e)) && multiset(Insert(s, e)) == multiset(s) + multiset{e}
  {
    InsertAdds(s, e);
    if s == [] {
    } else if s[|s| - 1].value <= e.value {
      SortedWithLast(s, e);
    } else {
      var init, last := s[..|s| - 1], s[|s| - 1];
      InsertKeepsOrder(init, e);
      forall x | x in Insert(init, e)
        ensures x.value <= last.value
      {
        assert x in multiset(Insert(init, e));
        assert x in init || x == e;
        if x in init {
          var i :| 0 <= i < |init| && init[i] == x;
          assert s[i] == x;
        }
      }
      hide Insert;
      SortedWithLast(Insert(init, e), last);
    }
  }

  function SortLevels(s: seq<PowerEntry>): (r: seq<PowerEntry>) {
    if s == [] then [] else Insert(SortLevels(s[..|s| - 1]), s[|s| - 1])
  }

  lemma {:induction false} SortLevelsSorts(s: seq<PowerEntry>)
    ensures SortedByPower(SortLevels(s)) && multiset(SortLevels(s)) == multiset(s)
  {
    if s != [] {
      var n := |s| - 1;
      SortLevelsSorts(s[..n]);
      InsertKeepsOrder(SortLevels(s[..n]), s[n]);
      assert s == s[..n] + [s[n]];
    }
  }

  /** Copies the reported levels and sorts the copy unless it is in order already. */
  method CopySorted(tpl: seq<PowerEntry>) returns (pwrLvls: seq<PowerEntry>)
    requires tpl != []
    ensures SortedByPower(pwrLvls) && multiset(pwrLvls) == multiset(tpl)
    ensures SortedByPower(tpl) ==> pwrLvls == tpl
  {
    var isSorted, last := true, tpl[0].value;
    pwrLvls := [];
    for i := 0 to |tpl|
      invariant pwrLvls == tpl[..i]
      invariant isSorted <==> SortedUpTo(tpl, i)
      invariant isSorted && i > 0 ==> last == tpl[i - 1].value
      invariant i == 0 ==> last == tpl[0].value
    {
      var entry := tpl[i];
      pwrLvls := pwrLvls + [entry];
      SortedSnoc(tpl, i);
      // an entry below the previous one means that the table is not in ascending order
      if entry.value < last {
        isSorted := false;
      } else {
        last := entry.value;
      }
    }
    assert tpl[..|tpl|] == tpl;
    if !isSorted {
      pwrLvls := SortLevels(pwrLvls);
      SortLevelsSorts(tpl);
    }
  }

  /** The number of entries below the target, which in a sorted table is where the others begin. */
  function Below(table: seq<PowerEntry>, target: int16): (k: nat)
    ensures k <= |table|
  {
    if table == [] || table[0].value >= target then 0 else 1 + Below(table[1..], target)
  }

  lemma {:induction false} BelowSplits(table: seq<PowerEntry>, target: int16)
    requires SortedByPower(table)
    ensures forall i :: 0 <= i < Below(table, target) ==> table[i].value < target
    ensures forall i :: Below(table, target) <= i < |table| ==> table[i].value >= target
  {
    if table != [] && table[0].value < target {
      BelowSplits(table[1..], target);
      var k := Below(table[1..], target);
      forall i | 0 <= i < |table|
        ensures if i < k + 1 then table[i].value < target else table[i].value >= target
      {
        if i > 0 {
          assert table[i] == table[1..][i - 1];
        }
      }
    }
  }

  /** `sort.Search`: binary search for the first entry that reaches the target. */
  method Search(table: seq<PowerEntry>, target: int16) returns (k: nat)
    requires SortedByPower(table)
    ensures k == Below(table, target)
  {
    BelowSplits(table, target);
    var i, j := 0, |table|;
    while i < j
      invariant 0 <= i <= j <= |table|
      invariant i <= Below(table, target) <= j
    {
      var h := i + (j - i) / 2;
      if table[h].value < target {
        i := h + 1;
      } else {
        j := h;
      }
    }
    return i;
  }

  function PowerFor(table: seq<PowerEntry>, target: int16): PowerEntry
    requires table != []
  {
    var k := Below(table, target);
    if k == 0 then table[0]
    else if k < |table| && table[k].value == target then table[k]
    else table[k - 1]
  }

  method FindPower(d: Device, target: int16) returns (tableIdx: uint16, value: int16)
    requires d.pwrMinToMax != [] && SortedByPower(d.pwrMinToMax)
    ensures PowerEntry(tableIdx, value) == PowerFor(d.pwrMinToMax, target)
  {
    var pwrIdx := Search(d.pwrMinToMax, target);
    var t: PowerEntry;
    if pwrIdx == 0 {
      t := d.pwrMinToMax[0];
    } else if pwrIdx < |d.pwrMinToMax| && d.pwrMinToMax[pwrIdx].value == target {
      t := d.pwrMinToMax[pwrIdx];
    } else {
      t := d.pwrMinToMax[pwrIdx - 1];
    }
    return t.index, t.value;
  }

  /** The greatest supported power not above the target or, when all are above it, the least one. */
  lemma BestPower(table: seq<PowerEntry>, target: int16)
    requires table != [] && SortedByPower(table)
    ensures var best := PowerFor(table, target);
            && best in table
            && (best.value <= target <==> exists e :: e in table && e.value <= target)
            && (best.value <= target ==> forall e :: e in table && e.value <= target ==> e.value <= best.value)
            && (best.value > target ==> forall e :: e in table ==> best.value <= e.value)
  {
    BelowSplits(table, target);
    var k, best := Below(table, target), PowerFor(table, target);
    forall e | e in table
      ensures e.value <= target ==> e.value <= best.value <= target
      ensures best.value > target ==> best.value <= e.value
    {
      var i :| 0 <= i < |table| && table[i] == e;
      if k == 0 {
        assert i > 0 ==> table[0].value <= table[i].value;
      } else if best.value < target && i < k {
        assert i < k - 1 ==> table[i].value <= table[k - 1].value;
      } else if k < i && k < |table| {
        assert table[k].value <= table[i].value;
      }
    }
  }

  // ---- Transmission ----

  datatype RFTransmitter = RFTransmitter(hopTableID: uint16, channelIndex: uint16, transmitPowerIndex: uint16)

  datatype Unsatisfiable = PowerTooLow | NoFrequency | InvalidGPIPort

  function IndexOf(table: seq<uint32>, f: uint32): (i: Option<nat>)
    ensures i.None? <==> f !in table
    ensures i.Some? ==> i.value < |table| && table[i.value] == f && f !in table[..i.value]
  {
    if table == [] then None
    else if table[0] == f then Some(0)
    else
      match IndexOf(table[1..], f)
      case None => None
      case Some(i) => assert table[..i + 1] == [table[0]] + table[1..][..i]; Some(i + 1)
  }

  function FirstPermitted(permitted: seq<uint32>, table: seq<uint32>): (i: Option<nat>)
    ensures i.None? <==> forall p :: p in permitted ==> p !in table
    ensures i.Some? ==> i.value < |table| && table[i.value] !in table[..i.value]
    ensures i.Some? ==> exists k :: 0 <= k < |permitted| && permitted[k] == table[i.value]
                                    && forall j :: 0 <= j < k ==> permitted[j] !in table
  {
    if permitted == [] then None
    else
      match IndexOf(table, permitted[0])
      case Some(i) => Some(i)
      case None =>
        var rest := FirstPermitted(permitted[1..], table);
        assert rest.Some? ==>
            exists k :: 0 <= k < |permitted| && permitted[k] == table[rest.value]
                        && forall j :: 0 <= j < k ==> permitted[j] !in table by {
          if rest.Some? {
            var k :| 0 <= k < |permitted[1..]| && permitted[1..][k] == table[rest.value]
                     && forall j :: 0 <= j < k ==> permitted[1..][j] !in table;
            assert permitted[k + 1] == table[rest.value];
            assert forall j :: 0 <= j < k + 1 ==> permitted[j] !in table by {
              forall j | 0 <= j < k + 1
                ensures permitted[j] !in table
              {
                if j > 0 {
                  assert permitted[j] == permitted[1..][j - 1];
                }
              }
            }
          }
        }
        rest
  }

  /** The devices that `NewBasicDevice` builds. */
  ghost predicate Usable(d: Device) {
    && d.pwrMinToMax != [] && SortedByPower(d.pwrMinToMax)
    && (if d.freqInfo.hopping then d.freqInfo.hopTables != []
        else d.freqInfo.fixedFrequencies.Some? && d.freqInfo.fixedFrequencies.value != [])
  }

  /** Channel indices are 1-based and 16 bits wide, so the 65536th entry of a table wraps to 0. */
  function Transmit(d: Device, max: int16, frequencies: seq<uint32>): Result<RFTransmitter, Unsatisfiable>
    requires Usable(d)
  {
    var power := PowerFor(d.pwrMinToMax, max);
    if power.value > max then Err(PowerTooLow)
    else if d.freqInfo.hopping then
      Ok(RFTransmitter(d.freqInfo.hopTables[0].hopTableID, 0, power.index))
    else
      match FirstPermitted(frequencies, d.freqInfo.fixedFrequencies.value)
      case Some(i) => Ok(RFTransmitter(0, (i + 1) % 0x1_0000, 0))
      case None => Err(NoFrequency)
  }

  /** A legal transmitter exists exactly when some supported power is at most the target and, outside
      hopping regions, some permitted frequency is in the device's table. */
  lemma TransmitIffPossible(d: Device, max: int16, frequencies: seq<uint32>)
    requires Usable(d)
    ensures Transmit(d, max, frequencies).Ok? <==>
            && (exists e :: e in d.pwrMinToMax && e.value <= max)
            && (d.freqInfo.hopping || exists p :: p in frequencies && p in d.freqInfo.fixedFrequencies.value)
    ensures Transmit(d, max, frequencies) == Err(PowerTooLow) <==> forall e :: e in d.pwrMinToMax ==> e.value > max
    ensures Transmit(d, max, frequencies).Err? ==> Transmit(d, max, frequencies).error in {PowerTooLow, NoFrequency}
  {
    BestPower(d.pwrMinToMax, max);
  }

  /** In a hopping region the first hop table is used, and the index names the greatest power not above
      the target. */
  lemma HoppingPower(d: Device, max: int16, frequencies: seq<uint32>)
    requires Usable(d) && d.freqInfo.hopping
    ensures var r := Transmit(d, max, frequencies);
            r.Ok? ==>
              && r.value.hopTableID == d.freqInfo.hopTables[0].hopTableID && r.value.channelIndex == 0
              && exists best :: best in d.pwrMinToMax && best.index == r.value.transmitPowerIndex && best.value <= max
                             && forall e :: e in d.pwrMinToMax && e.value <= max ==> e.value <= best.value
  {
    BestPower(d.pwrMinToMax, max);
  }

  /** In a fixed region the channel is the 1-based position of the first permitted frequency that the
      table has, provided that position fits 16 bits; the one position that does not becomes 0. The
      power that was looked up is not named: its index stays 0. */
  lemma FixedChannel(d: Device, max: int16, frequencies: seq<uint32>)
    requires Usable(d) && !d.freqInfo.hopping && |d.freqInfo.fixedFrequencies.value| <= 0x1_0000
    requires Transmit(d, max, frequencies).Ok?
    ensures var table, channel := d.freqInfo.fixedFrequencies.value, Transmit(d, max, frequencies).value.channelIndex;
            var first := FirstPermitted(frequencies, table).value;
            && Transmit(d, max, frequencies).value.transmitPowerIndex == 0
            && Transmit(d, max, frequencies).value.hopTableID == 0
            && (channel == 0 <==> first == 0xFFFF)
            && (channel != 0 ==>
                  && 1 <= channel <= |table| && table[channel - 1] !in table[..channel - 1]
                  && exists k :: 0 <= k < |frequencies| && frequencies[k] == table[channel - 1]
                                 && forall j :: 0 <= j < k ==> frequencies[j] !in table)
  {
    hide FirstPermitted, PowerFor;
    WrapsOnlyAtTheEnd(FirstPermitted(frequencies, d.freqInfo.fixedFrequencies.value).value);
  }

  /** The identity table of all 16-bit frequencies, that has one entry more than channels. */
  const FULL_TABLE: seq<uint32> := seq(0x1_0000, i requires 0 <= i < 0x1_0000 => i)

  /** A device that has it, and is asked for the last of its frequencies, is told to use channel 0. */
  lemma LastOfFullTable(powers: seq<PowerEntry>, max: int16)
    requires powers != [] && SortedByPower(powers) && powers[0].value <= max
    ensures var d := Device([], powers, FrequencyInformation(false, [], Some(FULL_TABLE)), 0, 0);
            && Usable(d)
            && Transmit(d, max, [0xFFFF]) == Ok(RFTransmitter(0, 0, 0))
  {
    var d := Device([], powers, FrequencyInformation(false, [], Some(FULL_TABLE)), 0, 0);
    assert FULL_TABLE[0xFFFF] == 0xFFFF;
    assert powers[0] in d.pwrMinToMax;
    TransmitIffPossible(d, max, [0xFFFF]);
    hide PowerFor, FirstPermitted, IndexOf;
    var first := FirstPermitted([0xFFFF], FULL_TABLE).value;
    assert FULL_TABLE[first] == first;
    FixedChannel(d, max, [0xFFFF]);
  }

  lemma WrapsOnlyAtTheEnd(i: nat)
    requires i < 0x1_0000
    ensures (i + 1) % 0x1_0000 == if i == 0xFFFF then 0 else i + 1
  {
  }

  // ---- RF modes ----

  /** Floating-point division by zero gives an infinite score rather than an error. */
  datatype Score = Finite(value: real) | Infinite {
    predicate Less(other: Score) {
      Finite? && (other.Infinite? || value < other.value)
    }
  }

  const BEST_RTCAL := 15625000.0
  const BEST_BDR := 640000.0

  /** The reader-to-tag calibration interval, which grows with the time that the forward link takes. */
  function RTcal(m: ModeEntry): nat {
    m.minTariTime * ((1000 + m.pieRatio) % 0x1_0000_0000)
  }

  /** Lower is better: the mean of two ratios, one for each direction of the link. */
  function ScoreOf(m: ModeEntry): Score {
    var fwd := RTcal(m);
    if fwd == 0 || m.backscatterDataRate == 0 then Infinite
    else Finite(0.5 * (BEST_RTCAL / fwd as real) + 0.5 * (BEST_BDR / m.backscatterDataRate as real))
  }

  /** The first mode of least score among those whose mask is high enough. */
  ghost predicate IsBest(modes: seq<ModeEntry>, mask: int, i: nat) {
    && i < |modes| && modes[i].spectralMask >= mask
    && (forall j :: 0 <= j < |modes| && modes[j].spectralMask >= mask ==> !ScoreOf(modes[j]).Less(ScoreOf(modes[i])))
    && (forall j :: 0 <= j < i && modes[j].spectralMask >= mask ==> ScoreOf(modes[i]).Less(ScoreOf(modes[j])))
  }

  method FastestAt(modes: seq<ModeEntry>, mask: nat) returns (bestIdx: nat, ok: bool)
    ensures ok <==> exists j :: 0 <= j < |modes| && modes[j].spectralMask >= mask
    ensures ok ==> IsBest(modes, mask, bestIdx)
  {
    bestIdx, ok := 0, false;
    var bestScore := Finite(0.0);
    for i := 0 to |modes|
      invariant ok <==> exists j :: 0 <= j < i && modes[j].spectralMask >= mask
      invariant ok ==> bestIdx < i && bestScore == ScoreOf(modes[bestIdx]) && IsBest(modes[..i], mask, bestIdx)
    {
      hide ScoreOf;
      var m := modes[i];
      assert modes[..i + 1] == modes[..i] + [m];
      if m.spectralMask < mask {
        continue;
      }
      var score := ScoreOf(m);
      if !ok || score.Less(bestScore) {
        bestScore := score;
        bestIdx := i;
      }
      ok := true;
    }
    assert modes[..|modes|] == modes;
  }

  const SPECTRAL_MASK_UNKNOWN: nat := 0
  const SPECTRAL_MASK_SINGLE: nat := 1
  const SPECTRAL_MASK_MULTI: nat := 2
  const SPECTRAL_MASK_DENSE: nat := 3

  /** How dense the environment is: dense once the readers outnumber half of the frequencies. */
  function MaskTarget(nReaders: nat, nFreqs: uint16): nat {
    if nReaders == 0 then SPECTRAL_MASK_UNKNOWN
    else if nReaders == 1 then SPECTRAL_MASK_SINGLE
    else if nReaders >= nFreqs || nReaders as real / nFreqs as real > 0.5 then SPECTRAL_MASK_DENSE
    else SPECTRAL_MASK_MULTI
  }

  lemma QuotientAboveHalf(x: real, y: real)
    requires y > 0.0
    ensures x / y > 0.5 <==> 2.0 * x > y
  {
    var ratio := x / y;
    assert ratio * y == x;
    if ratio > 0.5 {
      ProductPositive(ratio - 0.5, y);
      assert (ratio - 0.5) * y == x - 0.5 * y;
    } else {
      assert (0.5 - ratio) * y >= 0.0;
      assert (0.5 - ratio) * y == 0.5 * y - x;
    }
  }

  lemma TwiceAsMany(n: nat, f: nat)
    ensures 2.0 * n as real > f as real <==> 2 * n > f
  {
    assert 2.0 * n as real == (2 * n) as real;
  }

  lemma MoreThanHalf(n: nat, f: nat)
    requires f > 0
    ensures n as real / f as real > 0.5 <==> 2 * n > f
  {
    QuotientAboveHalf(n as real, f as real);
    TwiceAsMany(n, f);
  }

  /** In numbers: none is asked for when nothing is known of the readers nearby, a mask of 1 for a single
      reader, and for several 3 if there are more than half as many as frequencies, and 2 otherwise. */
  lemma MaskForDensity(nReaders: nat, nFreqs: uint16)
    ensures MaskTarget(nReaders, nFreqs) ==
            if nReaders == 0 then 0
            else if nReaders == 1 then 1
            else if 2 * nReaders > nFreqs then 3
            else 2
  {
    if nReaders >= 2 && nReaders < nFreqs {
      MoreThanHalf(nReaders, nFreqs);
    }
  }

  /** More readers never lower the requirement. */
  lemma DenserNeedsMore(nReaders: nat, more: nat, nFreqs: uint16)
    requires nReaders <= more
    ensures MaskTarget(nReaders, nFreqs) <= MaskTarget(more, nFreqs)
  {
    MaskForDensity(nReaders, nFreqs);
    MaskForDensity(more, nFreqs);
  }

  function HighestMask(modes: seq<ModeEntry>): (h: nat)
    ensures forall i :: 0 <= i < |modes| ==> modes[i].spectralMask <= h
    ensures modes != [] ==> exists i :: 0 <= i < |modes| && modes[i].spectralMask == h
  {
    if modes == [] then 0
    else
      var init, m := modes[..|modes| - 1], modes[|modes| - 1].spectralMask;
      var h := HighestMask(init);
      assert forall i :: 0 <= i < |init| ==> init[i] == modes[i];
      if m > h || |modes| == 1 then m else h
  }

  lemma HighestIsHighest(modes: seq<ModeEntry>)
    ensures forall m :: m in modes ==> m.spectralMask <= HighestMask(modes)
    ensures modes != [] ==> exists m :: m in modes && m.spectralMask == HighestMask(modes)
  {
    forall m | m in modes
      ensures m.spectralMask <= HighestMask(modes)
    {
      var i :| 0 <= i < |modes| && modes[i] == m;
      assert modes[i].spectralMask <= HighestMask(modes);
    }
    if modes != [] {
      var i :| 0 <= i < |modes| && modes[i].spectralMask == HighestMask(modes);
      assert modes[i] in modes;
    }
  }

  function Min(a: int, b: int): int {
    if a < b then a else b
  }

  lemma AnyMaskIsUnknown(modes: seq<ModeEntry>)
    ensures modes != [] ==> exists j :: 0 <= j < |modes| && modes[j].spectralMask >= SPECTRAL_MASK_UNKNOWN
  {
    if modes != [] {
      assert modes[0].spectralMask >= SPECTRAL_MASK_UNKNOWN;
    }
  }

  ghost predicate IsHighest(modes: seq<ModeEntry>, highest: nat) {
    (forall m :: m in modes ==> m.spectralMask <= highest) && (exists m :: m in modes && m.spectralMask == highest)
  }

  /** The first mode of least score among those whose mask suits the density of the environment, or is at
      least the highest that there is. */
  ghost predicate BestForDensity(modes: seq<ModeEntry>, nFreqs: uint16, nReaders: nat, i: nat) {
    exists highest: nat ::
      && IsHighest(modes, highest)
      && var density := if nReaders == 0 then 0
                        else if nReaders == 1 then 1
                        else if 2 * nReaders > nFreqs then 3
                        else 2;
         IsBest(modes, if density < highest then density else highest, i)
  }

  lemma BestForMask(modes: seq<ModeEntry>, nFreqs: uint16, nReaders: nat, i: nat)
    requires modes != [] && IsBest(modes, Min(MaskTarget(nReaders, nFreqs), HighestMask(modes)), i)
    ensures BestForDensity(modes, nFreqs, nReaders, i)
  {
    hide IsBest;
    HighestIsHighest(modes);
    MaskForDensity(nReaders, nFreqs);
    assert IsHighest(modes, HighestMask(modes));
  }

  /** None stands for the panic "no modes". */
  method FindBestMode(modes: seq<ModeEntry>, nFreqs: uint16, nReaders: nat) returns (best: Option<nat>)
    ensures best.None? <==> modes == []
    ensures best.Some? ==> BestForDensity(modes, nFreqs, nReaders, best.value)
    ensures best.Some? ==> IsBest(modes, Min(MaskTarget(nReaders, nFreqs), HighestMask(modes)), best.value)
  {
    AnyMaskIsUnknown(modes);
    var target := MaskTarget(nReaders, nFreqs);
    var maskTarget: nat := target;
    while true
      invariant maskTarget <= target
      invariant maskTarget < target ==> forall j :: 0 <= j < |modes| ==> modes[j].spectralMask <= maskTarget
      decreases maskTarget
    {
      hide ScoreOf, MaskTarget, BestForDensity;
      var mID, ok := FastestAt(modes, maskTarget);
      if ok {
        BestForMask(modes, nFreqs, nReaders, mID);
        return Some(mID);
      }
      if maskTarget == 0 {
        return None;
      }
      maskTarget := maskTarget - 1;
    }
  }

  /** Requiring a higher mask never yields a better score, and the best mode is unique. */
  lemma HigherMaskNeverBetter(modes: seq<ModeEntry>, mask: int, mask': int, i: nat, i': nat)
    requires mask <= mask' && IsBest(modes, mask, i) && IsBest(modes, mask', i')
    ensures !ScoreOf(modes[i']).Less(ScoreOf(modes[i]))
    ensures mask == mask' ==> i == i'
  {
  }

  lemma QuotientDifference(c: real, x: real, y: real)
    requires x > 0.0 && y > 0.0
    ensures (c / x - c / y) * (x * y) == c * (y - x)
  {
    var p, q := c / x, c / y;
    assert p * x == c && q * y == c;
    assert (p - q) * (x * y) == (p * x) * y - (q * y) * x;
  }

  lemma SignOfProduct(a: real, b: real)
    requires b > 0.0
    ensures a < 0.0 <==> a * b < 0.0
  {
  }

  lemma ProductPositive(a: real, b: real)
    requires a > 0.0 && b > 0.0
    ensures a * b > 0.0
  {
  }

  /** The advantage in data rate, weighed by the forward links. */
  function RateGain(a: ModeEntry, b: ModeEntry): real {
    BEST_BDR * (a.backscatterDataRate - b.backscatterDataRate) as real * (RTcal(a) as real * RTcal(b) as real)
  }

  /** The excess in RTcal, weighed by the data rates. */
  function ForwardExcess(a: ModeEntry, b: ModeEntry): real {
    BEST_RTCAL * (RTcal(a) - RTcal(b)) as real * (a.backscatterDataRate as real * b.backscatterDataRate as real)
  }

  predicate Scored(m: ModeEntry) {
    RTcal(m) != 0 && m.backscatterDataRate != 0
  }

  lemma SumOfQuotients(f: real, f': real, r: real, r': real, x: real, y: real)
    requires f > 0.0 && f' > 0.0 && r > 0.0 && r' > 0.0
    ensures 0.5 * (x / f) + 0.5 * (y / r) < 0.5 * (x / f') + 0.5 * (y / r') <==>
            x * (f' - f) * (r * r') + y * (r' - r) * (f * f') < 0.0
  {
    var u, v, w, z := x / f, x / f', y / r, y / r';
    var ff, rr := f * f', r * r';
    QuotientDifference(x, f, f');
    QuotientDifference(y, r, r');
    ProductPositive(f, f');
    ProductPositive(r, r');
    ProductPositive(ff, rr);
    SignOfProduct((u - v) + (w - z), ff * rr);
    Expand(u - v, w - z, ff, rr);
    assert ((u - v) * ff) * rr == x * (f' - f) * rr;
    assert ((w - z) * rr) * ff == y * (r' - r) * ff;
  }

  lemma Expand(a: real, b: real, s: real, t: real)
    ensures (a + b) * (s * t) == (a * s) * t + (b * t) * s
  {
  }

  /** How the score really ranks two modes, in all cases: a higher data rate counts for a mode, and so
      does a slower forward link. */
  lemma ScoresBetterIff(a: ModeEntry, b: ModeEntry)
    ensures ScoreOf(a).Less(ScoreOf(b)) <==>
            Scored(a) && (!Scored(b) || RateGain(a, b) + ForwardExcess(a, b) > 0.0)
  {
    if Scored(a) && Scored(b) {
      var f, f' := RTcal(a) as real, RTcal(b) as real;
      var r, r' := a.backscatterDataRate as real, b.backscatterDataRate as real;
      hide RTcal;
      SumOfQuotients(f, f', r, r', BEST_RTCAL, BEST_BDR);
      Negated(BEST_BDR, r, r', f * f');
      Negated(BEST_RTCAL, f, f', r * r');
    }
  }

  /** In the numbers of the mode table; 1000 is added to the PIE ratio in 32 bits. */
  lemma ScoresInNumbers(a: ModeEntry, b: ModeEntry)
    requires a.backscatterDataRate != 0 && b.backscatterDataRate != 0
    requires a.minTariTime * ((1000 + a.pieRatio as int) % 0x1_0000_0000) != 0
    requires b.minTariTime * ((1000 + b.pieRatio as int) % 0x1_0000_0000) != 0
    ensures ScoreOf(a).Less(ScoreOf(b)) <==>
            15625000.0 / (a.minTariTime * ((1000 + a.pieRatio as int) % 0x1_0000_0000)) as real
            + 640000.0 / a.backscatterDataRate as real
            < 15625000.0 / (b.minTariTime * ((1000 + b.pieRatio as int) % 0x1_0000_0000)) as real
              + 640000.0 / b.backscatterDataRate as real
  {
    assert RTcal(a) == a.minTariTime * ((1000 + a.pieRatio as int) % 0x1_0000_0000);
    assert RTcal(b) == b.minTariTime * ((1000 + b.pieRatio as int) % 0x1_0000_0000);
    hide RTcal;
  }

  lemma Negated(c: real, x: real, y: real, w: real)
    ensures c * (x - y) * w == -(c * (y - x) * w)
  {
  }

  lemma WeighedSign(c: real, d: real, w: real)
    requires c > 0.0 && w > 0.0
    ensures c * d * w > 0.0 <==> d > 0.0
  {
    if d > 0.0 {
      ProductPositive(c, d);
      ProductPositive(c * d, w);
    } else {
      assert c * d <= 0.0;
      assert (c * d) * w <= 0.0;
    }
  }

  /** Between modes with the same forward link, the higher data rate scores strictly better. */
  lemma HigherRateWins(a: ModeEntry, b: ModeEntry)
    requires RTcal(a) == RTcal(b) != 0
    ensures ScoreOf(a).Less(ScoreOf(b)) <==> a.backscatterDataRate > b.backscatterDataRate
  {
    ScoresBetterIff(a, b);
    if Scored(a) && Scored(b) {
      var f := RTcal(a) as real;
      hide RTcal, ScoreOf;
      ProductPositive(f, f);
      WeighedSign(BEST_BDR, (a.backscatterDataRate - b.backscatterDataRate) as real, f * f);
    }
  }

  /** Between modes with the same data rate, it is the slower forward link that scores strictly better. */
  lemma SlowerForwardLinkWins(a: ModeEntry, b: ModeEntry)
    requires a.backscatterDataRate == b.backscatterDataRate != 0
    ensures ScoreOf(a).Less(ScoreOf(b)) <==> RTcal(a) > RTcal(b)
  {
    ScoresBetterIff(a, b);
    hide ScoreOf, RTcal, Score.Less;
    if Scored(a) && Scored(b) {
      var r, f, f' := a.backscatterDataRate as real, RTcal(a) as real, RTcal(b) as real;
      NothingWeighed(BEST_BDR, f * f');
      assert RateGain(a, b) == 0.0;
      ProductPositive(r, r);
      WeighedSign(BEST_RTCAL, (RTcal(a) - RTcal(b)) as real, r * r);
      hide RateGain;
    }
  }

  lemma NothingWeighed(c: real, w: real)
    ensures c * 0.0 * w == 0.0
  {
  }

  /** So a mode that is at least as good on both links loses to one that is not, exactly if its lead in
      data rate weighs less than the other's slower forward link. */
  lemma FasterModeLosesIff(good: ModeEntry, bad: ModeEntry)
    requires Scored(good) && Scored(bad)
    requires good.backscatterDataRate >= bad.backscatterDataRate && RTcal(good) <= RTcal(bad)
    ensures ScoreOf(bad).Less(ScoreOf(good)) <==> RateGain(good, bad) < ForwardExcess(bad, good)
  {
    ScoresBetterIff(bad, good);
    var f, f' := RTcal(good) as real, RTcal(bad) as real;
    hide RTcal, ScoreOf;
    assert f * f' == f' * f;
    Negated(BEST_BDR, bad.backscatterDataRate as real, good.backscatterDataRate as real, f' * f);
  }

  const FAST := ModeEntry(1, 0, 3, 640000, 1500, 6250)
  const SLOW := ModeEntry(2, 0, 3, 640000, 1500, 25000)

  /** The best possible forward link loses, whatever mask is required, to one that takes four times as
      long and is no better in anything. */
  lemma BestForwardLinkLoses(mask: nat)
    requires mask <= SPECTRAL_MASK_DENSE
    ensures FAST == SLOW.(modeID := FAST.modeID, minTariTime := FAST.minTariTime)
    ensures RTcal(FAST) as real == BEST_RTCAL && RTcal(SLOW) == 4 * RTcal(FAST)
    ensures IsBest([FAST, SLOW], mask, 1)
  {
    SlowerForwardLinkWins(SLOW, FAST);
    SlowerForwardLinkWins(FAST, SLOW);
  }

  // ---- Building a device from its capabilities ----

  /** The table whose length counts the frequencies: the first hop table, or the fixed one. */
  function FrequencyTable(f: FrequencyInformation): Option<seq<uint32>> {
    if f.hopping then (if f.hopTables == [] then None else Some(f.hopTables[0].frequencies))
    else if f.fixedFrequencies.None? || f.fixedFrequencies.value == [] then None
    else f.fixedFrequencies
  }

  /** A device is built exactly when nothing is missing; a longer frequency table than LLRP can
      carry is a programming error, and one of exactly 65536 entries is counted as 0. */
  method NewBasicDevice(caps: Option<Capabilities>) returns (r: Result<Device, DeviceError>)
    ensures r.Ok? <==>
              && caps.Some? && caps.value.powerLevels != [] && caps.value.modes != []
              && var f := caps.value.freqInfo;
                 if f.hopping then f.hopTables != [] && |f.hopTables[0].frequencies| <= 0x1_0000
                 else f.fixedFrequencies.Some? && 0 < |f.fixedFrequencies.value| <= 0x1_0000
    ensures r == Err(ImpossibleTableLength) <==>
              && caps.Some? && caps.value.powerLevels != [] && caps.value.modes != []
              && var f := caps.value.freqInfo;
                 if f.hopping then f.hopTables != [] && |f.hopTables[0].frequencies| > 0x1_0000
                 else f.fixedFrequencies.Some? && |f.fixedFrequencies.value| > 0x1_0000
    ensures r.Ok? ==>
              && Usable(r.value) && r.value.modes == caps.value.modes && r.value.freqInfo == caps.value.freqInfo
              && multiset(r.value.pwrMinToMax) == multiset(caps.value.powerLevels)
              && r.value.nGPIs == caps.value.numGPIs
              && r.value.nFreqs == (if caps.value.freqInfo.hopping then |caps.value.freqInfo.hopTables[0].frequencies|
                                    else |caps.value.freqInfo.fixedFrequencies.value|) % 0x1_0000
  {
    if caps.None? || caps.value.powerLevels == [] || caps.value.modes == [] {
      return Err(MissingCapInfo);
    }
    var c := caps.value;
    var table := FrequencyTable(c.freqInfo);
    if table.None? {
      return Err(MissingCapInfo);
    }
    if |table.value| > 0x1_0000 {
      return Err(ImpossibleTableLength);
    }
    var nFreqs: uint16 := |table.value| % 0x1_0000;
    var pwrLvls := CopySorted(c.powerLevels);
    assert pwrLvls != [] by {
      assert |multiset(pwrLvls)| == |pwrLvls| && |multiset(c.powerLevels)| == |c.powerLevels|;
    }
    return Ok(Device(c.modes, pwrLvls, c.freqInfo, nFreqs, c.numGPIs));
  }

  function Power2(k: nat): (p: nat)
    ensures p > 0
  {
    if k == 0 then 1 else 2 * Power2(k - 1)
  }

  /** Shifting right divides, rounding down. */
  lemma {:induction false} ShiftDivides(x: nat, k: nat)
    ensures ShiftRight(x, k) * Power2(k) <= x < (ShiftRight(x, k) + 1) * Power2(k)
  {
    if k > 0 {
      ShiftDivides(x / 2, k - 1);
      HalvedOnce(x, ShiftRight(x / 2, k - 1), Power2(k - 1));
    }
  }

  lemma HalvedOnce(x: nat, r: nat, p: nat)
    requires r * p <= x / 2 < (r + 1) * p
    ensures r * (2 * p) <= x < (r + 1) * (2 * p)
  {
    var a, b := r * p, (r + 1) * p;
    assert r * (2 * p) == 2 * a && (r + 1) * (2 * p) == 2 * b;
  }

  function ShiftRight(x: nat, k: nat): (r: nat)
    ensures r <= x
  {
    if k == 0 then x else ShiftRight(x / 2, k - 1)
  }

  /** Impinj reports link frequencies instead of data rates, and made-up values for modes from 1000 on. */
  function Corrected(modes: seq<ModeEntry>): (fixed: seq<ModeEntry>)
    ensures fixed == [] <==> forall m :: m in modes ==> m.modeID >= 1000
    ensures forall m :: m in fixed ==> m.modeID < 1000
  {
    if modes == [] then []
    else
      var init, m := modes[..|modes| - 1], modes[|modes| - 1];
      assert modes == init + [m];
      if m.modeID >= 1000 then Corrected(init)
      else Corrected(init) + [m.(backscatterDataRate := ShiftRight(m.backscatterDataRate, m.modulation))]
  }

  /** The `i`-th entry of the corrected table is the `j`-th reported one, with the link frequency over
      two to the modulation for its data rate; what comes before it is what came before that. */
  ghost predicate CorrectsMode(modes: seq<ModeEntry>, i: nat, j: nat)
    requires i < |Corrected(modes)|
  {
    && i <= j < |modes| && modes[j].modeID < 1000
    && Corrected(modes)[i] ==
       modes[j].(backscatterDataRate := ShiftRight(modes[j].backscatterDataRate, modes[j].modulation))
    && Corrected(modes[..j]) == Corrected(modes)[..i]
  }

  /** So the corrected table has, in their order, just the modes that are not made up. */
  lemma {:induction false} CorrectedRates(modes: seq<ModeEntry>, i: nat)
    requires i < |Corrected(modes)|
    ensures exists j: nat :: CorrectsMode(modes, i, j)
  {
    var n := |modes| - 1;
    var init := modes[..n];
    if i < |Corrected(init)| {
      CorrectedRates(init, i);
      var j: nat :| CorrectsMode(init, i, j);
      assert init[..j] == modes[..j] && init[j] == modes[j];
      assert Corrected(modes)[..i] == Corrected(init)[..i];
      assert CorrectsMode(modes, i, j);
    } else {
      CorrectedNoLonger(init);
      assert Corrected(modes)[..i] == Corrected(init);
      assert CorrectsMode(modes, i, n);
    }
  }

  lemma {:induction false} CorrectedNoLonger(modes: seq<ModeEntry>)
    ensures |Corrected(modes)| <= |modes|
  {
    if modes != [] {
      CorrectedNoLonger(modes[..|modes| - 1]);
    }
  }

  const AUTOSET := ModeEntry(1000, 0, 0, 40000, 1500, 6250)

  /** A reader that reports nothing but a made-up mode is left with none to choose from. */
  lemma OnlyMadeUpModes()
    ensures Corrected([AUTOSET]) == []
  {
  }

  method CorrectModes(modes: seq<ModeEntry>) returns (fixed: seq<ModeEntry>)
    ensures fixed == Corrected(modes)
  {
    fixed := [];
    for i := 0 to |modes|
      invariant fixed == Corrected(modes[..i])
    {
      var m := modes[i];
      assert modes[..i + 1][..i] == modes[..i];
      if m.modeID >= 1000 {
        continue;
      }
      fixed := fixed + [m.(backscatterDataRate := ShiftRight(m.backscatterDataRate, m.modulation))];
    }
    assert modes[..|modes|] == modes;
  }

  /** So choosing a mode on an Impinj reader panics exactly when all its modes are made up. */
  method ImpinjBestMode(modes: seq<ModeEntry>, nFreqs: uint16, nReaders: nat) returns (best: Option<nat>)
    ensures best.None? <==> forall m :: m in modes ==> m.modeID >= 1000
    ensures best.Some? ==>
              var fixed := Corrected(modes);
              && IsBest(fixed, Min(MaskTarget(nReaders, nFreqs), HighestMask(fixed)), best.value)
              && BestForDensity(fixed, nFreqs, nReaders, best.value)
    ensures best.Some? ==> Corrected(modes)[best.value].modeID < 1000
  {
    var fixed := CorrectModes(modes);
    best := FindBestMode(fixed, nFreqs, nReaders);
  }

  // ---- A behaviour turned into an ROSpec ----

  datatype Behavior = Behavior(gpiPort: Option<uint16>, powerMax: int16, frequencies: seq<uint32>, duration: uint32)

  datatype Environment = Environment(numNearbyReaders: nat)

  datatype ROSpec = ROSpec(
    roSpecID: uint32,
    transmit: RFTransmitter,
    rfModeID: uint16,
    tari: uint16,
    behavior: Behavior)

  predicate ValidPort(d: Device, port: Option<uint16>) {
    port.Some? ==> port.value != 0 && d.nGPIs != 0 && port.value <= d.nGPIs
  }

  /** A device accepts a behaviour exactly when the trigger port exists and it can transmit as asked;
      the environment has no say in that. */
  method NewROSpec(d: Device, b: Behavior, e: Environment) returns (r: Result<ROSpec, Unsatisfiable>)
    requires Usable(d) && d.modes != []
    ensures r.Ok? <==>
              && (b.gpiPort.Some? ==> 1 <= b.gpiPort.value <= d.nGPIs)
              && Transmit(d, b.powerMax, b.frequencies).Ok?
    ensures r == Err(InvalidGPIPort) <==> b.gpiPort.Some? && !(1 <= b.gpiPort.value <= d.nGPIs)
    ensures r.Ok? ==>
              && r.value.roSpecID == 1 && r.value.behavior == b
              && Ok(r.value.transmit) == Transmit(d, b.powerMax, b.frequencies)
              && exists i: nat ::
                   BestForDensity(d.modes, d.nFreqs, e.numNearbyReaders, i)
                             && r.value.rfModeID == d.modes[i].modeID % 0x1_0000
                             && r.value.tari == d.modes[i].minTariTime % 0x1_0000
  {
    if !ValidPort(d, b.gpiPort) {
      return Err(InvalidGPIPort);
    }
    var transmit := Transmit(d, b.powerMax, b.frequencies);
    if transmit.Err? {
      return Err(transmit.error);
    }
    var best := FindBestMode(d.modes, d.nFreqs, e.numNearbyReaders);
    var mode := d.modes[best.value];
    return Ok(ROSpec(1, transmit.value, mode.modeID % 0x1_0000, mode.minTariTime % 0x1_0000, b));
  }
}
