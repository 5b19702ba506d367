/** The weight given to an older reading when a tag is heard at a second location. */
module MobilityProfiles {

  datatype MobilityProfile = MobilityProfile(slope: real, threshold: real, holdoffMillis: real, yIntercept: real) {
    /** A straight line in the elapsed time. */
    function Line(referenceTimestamp: int, lastRead: int): real {
      slope * (referenceTimestamp - lastRead) as real + yIntercept
    }

    /** The line, capped at the threshold. */
    function ComputeOffset(referenceTimestamp: int, lastRead: int): real {
      var offset := Line(referenceTimestamp, lastRead);
      if offset > threshold then threshold else offset
    }
  }

  function NewMobilityProfile(slope: real, threshold: real, holdoffMillis: real): MobilityProfile {
    MobilityProfile(slope, threshold, holdoffMillis, threshold - slope * holdoffMillis)
  }

  lemma ProductSign(slope: real, d: real)
    requires slope <= 0.0
    ensures d <= 0.0 ==> slope * d >= 0.0
    ensures slope < 0.0 && d > 0.0 ==> slope * d < 0.0
  {
  }

  lemma LineFromHoldoff(slope: real, threshold: real, holdoff: real, now: int, lastRead: int)
    ensures NewMobilityProfile(slope, threshold, holdoff).Line(now, lastRead)
            == threshold + slope * ((now - lastRead) as real - holdoff)
  {
    var x := (now - lastRead) as real;
    assert slope * (x - holdoff) == slope * x - slope * holdoff;
  }

  /** The offset in terms of the settings: it falls by the slope for each millisecond beyond the holdoff
      time, and is never more than the threshold. */
  lemma OffsetFromSettings(slope: real, threshold: real, holdoff: real, now: int, lastRead: int)
    ensures var offset := NewMobilityProfile(slope, threshold, holdoff).ComputeOffset(now, lastRead);
            var uncapped := threshold + slope * ((now - lastRead) as real - holdoff);
            offset == if uncapped > threshold then threshold else uncapped
  {
    LineFromHoldoff(slope, threshold, holdoff, now, lastRead);
  }

  /** With a falling line, the full threshold applies for exactly the holdoff time. */
  lemma FullThresholdDuringHoldoff(slope: real, threshold: real, holdoff: real, now: int, lastRead: int)
    requires slope <= 0.0
    ensures var p := NewMobilityProfile(slope, threshold, holdoff);
            && ((now - lastRead) as real <= holdoff ==> p.ComputeOffset(now, lastRead) == threshold)
            && (slope < 0.0 && (now - lastRead) as real > holdoff ==> p.ComputeOffset(now, lastRead) < threshold)
  {
    var p, d := NewMobilityProfile(slope, threshold, holdoff), (now - lastRead) as real - holdoff;
    ProductSign(slope, d);
    LineFromHoldoff(slope, threshold, holdoff, now, lastRead);
    var line, e := p.Line(now, lastRead), slope * d;
    assert p.threshold == threshold;
    hide NewMobilityProfile, MobilityProfile.Line;
    assert line == threshold + e;
    if d <= 0.0 {
      assert line >= threshold;
    } else if slope < 0.0 {
      assert line < threshold;
    }
  }

  /** A falling line gets below any bound: how long that takes can be computed beforehand. */
  lemma LineFallsBelow(p: MobilityProfile, bound: real, now: int, lastRead: int)
    requires p.slope < 0.0
    requires (now - lastRead) as real > (p.yIntercept - bound) / -p.slope
    ensures p.Line(now, lastRead) < bound
  {
    var x, q := (now - lastRead) as real, (p.yIntercept - bound) / -p.slope;
    assert q * -p.slope == p.yIntercept - bound;
    assert (x - q) * -p.slope > 0.0;
  }
}
