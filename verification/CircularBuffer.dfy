/** The moving window of RSSI values kept for one tag at one location. */
module CircularBuffers {
  import opened Basics

  function Sum(s: seq<real>): real {
    if s == [] then 0.0 else s[0] + Sum(s[1..])
  }

  lemma {:induction false} SumAppend(s: seq<real>, v: real)
    ensures Sum(s + [v]) == Sum(s) + v
  {
    if s == [] {
      assert s + [v] == [v];
    } else {
      assert (s + [v])[1..] == s[1..] + [v];
      SumAppend(s[1..], v);
    }
  }

  lemma SumFirst(s: seq<real>)
    requires s != []
    ensures Sum(s) == s[0] + Sum(s[1..])
  {
  }

  function MeanOf(s: seq<real>): real
    requires s != []
  {
    Sum(s) / |s| as real
  }

  ghost predicate InBand(s: seq<real>, lo: real, hi: real) {
    forall i :: 0 <= i < |s| ==> lo <= s[i] <= hi
  }

  lemma {:induction false} SumBetween(s: seq<real>, lo: real, hi: real)
    requires InBand(s, lo, hi)
    ensures lo * |s| as real <= Sum(s) <= hi * |s| as real
  {
    if s != [] {
      var rest := s[1..];
      SumBetween(rest, lo, hi);
      assert |s| as real == |rest| as real + 1.0;
      assert lo * |s| as real == lo * |rest| as real + lo;
      assert hi * |s| as real == hi * |rest| as real + hi;
    }
  }

  lemma MeanTimesLength(s: seq<real>)
    requires s != []
    ensures MeanOf(s) * |s| as real == Sum(s)
  {
    hide Sum;
  }

  /** A mean lies between any bounds on the values it averages. */
  lemma MeanBetween(s: seq<real>, lo: real, hi: real)
    requires s != [] && InBand(s, lo, hi)
    ensures lo <= MeanOf(s) <= hi
  {
    SumBetween(s, lo, hi);
    MeanTimesLength(s);
    hide MeanOf, Sum, InBand;
    CancelFactor(lo, MeanOf(s), |s| as real);
    CancelFactor(MeanOf(s), hi, |s| as real);
  }

  lemma CancelFactor(a: real, b: real, n: real)
    requires n > 0.0 && a * n <= b * n
    ensures a <= b
  {
    assert (b - a) * n >= 0.0;
  }

  /** The window after one more value: the oldest goes once the window is full. */
  function Slide(recent: seq<real>, window: nat, v: real): (r: seq<real>)
    requires window > 0
  {
    if |recent| < window then recent + [v] else recent[1..] + [v]
  }

  function SlideAll(window: nat, vs: seq<real>): seq<real>
    requires window > 0
  {
    if vs == [] then [] else Slide(SlideAll(window, vs[..|vs| - 1]), window, vs[|vs| - 1])
  }

  lemma SlideKeepsLastN(vs: seq<real>, window: nat, v: real)
    requires window > 0
    ensures Slide(LastN(vs, window), window, v) == LastN(vs + [v], window)
  {
  }

  /** After any number of additions the window holds exactly the latest values, in order. */
  lemma {:induction false} WindowIsLastN(window: nat, vs: seq<real>)
    requires window > 0
    ensures SlideAll(window, vs) == LastN(vs, window)
  {
    if vs != [] {
      var init, v := vs[..|vs| - 1], vs[|vs| - 1];
      WindowIsLastN(window, init);
      SlideKeepsLastN(init, window, v);
      assert vs == init + [v];
    }
  }

  /** Writing over the oldest value and stepping on slides the window, read from the index around. */
  lemma Rotates(s: seq<real>, i: nat, v: real)
    requires i < |s|
    ensures var next, s' := if i + 1 < |s| then i + 1 else 0, s[i := v];
            s'[next..] + s'[..next] == (s[i..] + s[..i])[1..] + [v]
    ensures (s[i..] + s[..i])[0] == s[i]
  {
  }

  class CircularBuffer {
    const values: array<real>   // capacity: values.Length
    var len: nat
    var total: real
    var index: nat
    /** The window, oldest value first. */
    ghost var Contents: seq<real>

    ghost predicate Valid()
      reads this, values
    {
      && 0 < values.Length
      && len <= values.Length
      && index < values.Length
      && (len < values.Length ==> index == 0)
      && Contents == values[index..len] + values[..index]
      && total == Sum(Contents)
    }

    constructor (windowSize: nat)
      requires windowSize > 0
      ensures Valid() && fresh(values)
      ensures values.Length == windowSize && Contents == []
    {
      values := new real[windowSize];
      len, total, index, Contents := 0, 0.0, 0, [];
    }

    function Len(): (n: nat)
      requires Valid()
      reads this, values
      ensures n == |Contents|
    {
      len
    }

    /** The moving average; None stands for the NaN of an empty buffer. */
    method Mean() returns (m: Option<real>)
      requires Valid()
      ensures m == if Contents == [] then None else Some(MeanOf(Contents))
    {
      if len == 0 {
        return None;
      }
      return Some(total / len as real);
    }

    method AddValue(value: real)
      requires Valid()
      modifies this, values
      ensures Valid()
      ensures Contents == Slide(old(Contents), values.Length, value)
    {
      hide Sum;
      if len < values.Length {
        SumAppend(Contents, value);
        values[len] := value;
        len := len + 1;
        total := total + value;
        Contents := Contents + [value];
        assert values[..len] == old(values[..len]) + [value];
        return;
      }
      ghost var was := values[..];
      assert Contents == was[index..] + was[..index];
      Rotates(was, index, value);
      SumFirst(Contents);
      SumAppend(Contents[1..], value);
      total := total - values[index] + value;
      values[index] := value;
      assert values[..] == was[index := value];
      Contents := Contents[1..] + [value];
      index := index + 1;
      if index >= values.Length {
        index := 0;
      }
      assert values[index..len] + values[..index] == values[..][index..] + values[..][..index];
    }
  }
}
