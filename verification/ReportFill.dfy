/** LLRP lets a reader leave out of a tag report any enabled parameter whose value has not changed
    since it was last sent (section 13.2.3 of LLRP 1.0.1). Filling the omissions in again. */
module ReportFill {
  import opened TagReports

  type Values = map<Field, int>

  const FIELDS: seq<Field> := [
    ROSpecID, SpecIndex, InventoryParameterSpecID, AntennaID, PeakRSSI,
    ChannelIndex, FirstSeenUTC, LastSeenUTC, TagSeenCount]

  lemma AllFields(f: Field)
    ensures f in FIELDS
  {
    match f {
      case ROSpecID => assert FIELDS[0] == f;
      case SpecIndex => assert FIELDS[1] == f;
      case InventoryParameterSpecID => assert FIELDS[2] == f;
      case AntennaID => assert FIELDS[3] == f;
      case PeakRSSI => assert FIELDS[4] == f;
      case ChannelIndex => assert FIELDS[5] == f;
      case FirstSeenUTC => assert FIELDS[6] == f;
      case LastSeenUTC => assert FIELDS[7] == f;
      case TagSeenCount => assert FIELDS[8] == f;
    }
  }

  // ---- The meaning of a compressed report ----

  /** `last` with the values that one report carries for the enabled parameters. */
  function Advance(selector: set<Field>, last: Values, sent: Values): Values {
    map f | f in last :: if f in selector && f in sent then sent[f] else last[f]
  }

  function AdvanceAll(selector: set<Field>, last: Values, sent: seq<Values>): Values {
    if sent == [] then last
    else Advance(selector, AdvanceAll(selector, last, sent[..|sent| - 1]), sent[|sent| - 1])
  }

  /** What is remembered of an enabled parameter is the value it was last sent with, if it ever was. */
  lemma {:induction false} LatestIsRemembered(selector: set<Field>, last: Values, sent: seq<Values>, f: Field)
    requires f in last
    ensures f in AdvanceAll(selector, last, sent)
    ensures (f !in selector || forall i :: 0 <= i < |sent| ==> f !in sent[i]) ==>
              AdvanceAll(selector, last, sent)[f] == last[f]
    ensures forall i :: 0 <= i < |sent| && f in selector && f in sent[i]
                        && (forall j :: i < j < |sent| ==> f !in sent[j]) ==>
              AdvanceAll(selector, last, sent)[f] == sent[i][f]
  {
    if sent != [] {
      LatestIsRemembered(selector, last, sent[..|sent| - 1], f);
    }
  }

  /** An absent enabled parameter stands for the last value of its kind. */
  function FillOne(selector: set<Field>, last: Values, sent: Values): Values
    requires selector <= last.Keys
  {
    map f | f in sent.Keys + selector :: if f in sent then sent[f] else last[f]
  }

  function Fill(selector: set<Field>, last: Values, sent: seq<Values>): (filled: seq<Values>)
    requires selector <= last.Keys
    ensures |filled| == |sent|
  {
    if sent == [] then []
    else
      var init := sent[..|sent| - 1];
      LastKeys(selector, last, init);
      Fill(selector, last, init) + [FillOne(selector, AdvanceAll(selector, last, init), sent[|sent| - 1])]
  }

  lemma {:induction false} LastKeys(selector: set<Field>, last: Values, sent: seq<Values>)
    ensures AdvanceAll(selector, last, sent).Keys == last.Keys
  {
    if sent != [] {
      LastKeys(selector, last, sent[..|sent| - 1]);
    }
  }

  /** A report that carries every enabled parameter. */
  predicate Complete(selector: set<Field>, full: Values) {
    selector <= full.Keys
  }

  /** `sent` is `full` with some enabled parameters left out whose value is the last one of its kind. */
  ghost predicate Omits(selector: set<Field>, last: Values, full: Values, sent: Values) {
    && Complete(selector, full)
    && sent.Keys <= full.Keys
    && (forall f :: f in sent ==> sent[f] == full[f])
    && (forall f :: f in full && f !in sent ==> f in selector && f in last && last[f] == full[f])
  }

  /** A whole sequence of reports compressed in this way, whatever is left out where. */
  ghost predicate Compressed(selector: set<Field>, last: Values, full: seq<Values>, sent: seq<Values>) {
    && |full| == |sent|
    && forall i :: 0 <= i < |full| ==> Omits(selector, AdvanceAll(selector, last, full[..i]), full[i], sent[i])
  }

  lemma FillUndoesOmission(selector: set<Field>, last: Values, full: Values, sent: Values)
    requires selector <= last.Keys && Omits(selector, last, full, sent)
    ensures FillOne(selector, last, sent) == full
    ensures Advance(selector, last, sent) == Advance(selector, last, full)
  {
  }

  lemma CompressedLength(selector: set<Field>, last: Values, full: seq<Values>, sent: seq<Values>)
    requires Compressed(selector, last, full, sent)
    ensures |full| == |sent|
  {
  }

  lemma CompressedInit(selector: set<Field>, last: Values, full: seq<Values>, sent: seq<Values>)
    requires Compressed(selector, last, full, sent) && full != [] && |full| == |sent|
    ensures var n := |full| - 1;
            && Compressed(selector, last, full[..n], sent[..n])
            && Omits(selector, AdvanceAll(selector, last, full[..n]), full[n], sent[n])
  {
    hide Omits, AdvanceAll;
    var n := |full| - 1;
    assert forall i :: 0 <= i < n ==> full[..n][..i] == full[..i];
  }

  /** Filling restores the original reports exactly, and leaves the receiver knowing the same last
      values as if nothing had been omitted. */
  lemma {:induction false} FillRestores(selector: set<Field>, last: Values, full: seq<Values>, sent: seq<Values>)
    requires selector <= last.Keys && Compressed(selector, last, full, sent)
    ensures Fill(selector, last, sent) == full
    ensures AdvanceAll(selector, last, sent) == AdvanceAll(selector, last, full)
  {
    hide Omits, FillOne, Advance, Compressed;
    if full == [] {
      CompressedLength(selector, last, full, sent);
    } else {
      var n := |full| - 1;
      CompressedLength(selector, last, full, sent);
      CompressedInit(selector, last, full, sent);
      FillRestores(selector, last, full[..n], sent[..n]);
      LastKeys(selector, last, full[..n]);
      FillUndoesOmission(selector, AdvanceAll(selector, last, full[..n]), full[n], sent[n]);
      assert full == full[..n] + [full[n]];
    }
  }

  lemma FilledWasOmission(selector: set<Field>, last: Values, full: Values, sent: Values)
    requires selector <= last.Keys && FillOne(selector, last, sent) == full
    ensures Omits(selector, last, full, sent)
  {
  }

  lemma CompressedSnoc(selector: set<Field>, last: Values, full: seq<Values>, sent: seq<Values>)
    requires |full| == |sent| > 0
    ensures var n := |full| - 1;
            Compressed(selector, last, full[..n], sent[..n])
            && Omits(selector, AdvanceAll(selector, last, full[..n]), full[n], sent[n])
            ==> Compressed(selector, last, full, sent)
  {
    hide Omits, AdvanceAll;
    var n := |full| - 1;
    assert forall i :: 0 <= i < n ==> full[..n][..i] == full[..i] && full[..n][i] == full[i] && sent[..n][i] == sent[i];
  }

  lemma {:induction false} FilledWasCompressed(
      selector: set<Field>, last: Values, full: seq<Values>, sent: seq<Values>)
    requires selector <= last.Keys && |full| == |sent| && Fill(selector, last, sent) == full
    ensures Compressed(selector, last, full, sent)
  {
    hide Omits, FillOne, Advance, Compressed;
    if full == [] {
      assert Compressed(selector, last, full, sent) by { NothingCompressed(selector, last); }
    } else {
      var n := |full| - 1;
      FillConcat(selector, last, sent[..n], [sent[n]]);
      assert sent == sent[..n] + [sent[n]];
      LastKeys(selector, last, sent[..n]);
      assert full[..n] == Fill(selector, last, sent[..n]);
      FilledWasCompressed(selector, last, full[..n], sent[..n]);
      FillRestores(selector, last, full[..n], sent[..n]);
      FilledWasOmission(selector, AdvanceAll(selector, last, sent[..n]), full[n], sent[n]);
      CompressedSnoc(selector, last, full, sent);
    }
  }

  lemma NothingCompressed(selector: set<Field>, last: Values)
    ensures Compressed(selector, last, [], [])
  {
  }

  /** Filling restores the original reports if and only if what was left out of them are enabled
      parameters equal to the last value of their kind. */
  lemma FillRestoresIff(selector: set<Field>, last: Values, full: seq<Values>, sent: seq<Values>)
    requires selector <= last.Keys && |full| == |sent|
    ensures Fill(selector, last, sent) == full <==> Compressed(selector, last, full, sent)
  {
    hide Compressed, Fill, AdvanceAll;
    if Compressed(selector, last, full, sent) {
      FillRestores(selector, last, full, sent);
    } else if Fill(selector, last, sent) == full {
      FilledWasCompressed(selector, last, full, sent);
    }
  }

  // ---- Batches ----

  lemma {:induction false} FillConcat(selector: set<Field>, last: Values, a: seq<Values>, b: seq<Values>)
    requires selector <= last.Keys
    ensures selector <= AdvanceAll(selector, last, a).Keys
    ensures AdvanceAll(selector, last, a + b) == AdvanceAll(selector, AdvanceAll(selector, last, a), b)
    ensures Fill(selector, last, a + b) == Fill(selector, last, a) + Fill(selector, AdvanceAll(selector, last, a), b)
  {
    hide FillOne, Advance;
    LastKeys(selector, last, a);
    if b == [] {
      assert a + b == a;
    } else {
      var init := b[..|b| - 1];
      FillConcat(selector, last, a, init);
      assert (a + b)[..|a + b| - 1] == a + init;
    }
  }

  function Flatten(batches: seq<seq<Values>>): seq<Values> {
    if batches == [] then [] else Flatten(batches[..|batches| - 1]) + batches[|batches| - 1]
  }

  /** Filling batch by batch, carrying the last values over from one batch to the next. */
  function FillBatches(selector: set<Field>, last: Values, batches: seq<seq<Values>>): seq<Values>
    requires selector <= last.Keys
  {
    if batches == [] then []
    else
      var init := batches[..|batches| - 1];
      LastKeys(selector, last, Flatten(init));
      FillBatches(selector, last, init)
      + Fill(selector, AdvanceAll(selector, last, Flatten(init)), batches[|batches| - 1])
  }

  /** Where the stream of reports is cut into messages makes no difference. */
  lemma {:induction false} BatchesDoNotMatter(
      selector: set<Field>, last: Values, full: seq<Values>, batches: seq<seq<Values>>)
    requires selector <= last.Keys && Compressed(selector, last, full, Flatten(batches))
    ensures FillBatches(selector, last, batches) == full
  {
    FillRestores(selector, last, full, Flatten(batches));
    FillBatchesIsFill(selector, last, batches);
  }

  lemma {:induction false} FillBatchesIsFill(selector: set<Field>, last: Values, batches: seq<seq<Values>>)
    requires selector <= last.Keys
    ensures FillBatches(selector, last, batches) == Fill(selector, last, Flatten(batches))
  {
    if batches != [] {
      FillBatchesIsFill(selector, last, batches[..|batches| - 1]);
      FillConcat(selector, last, Flatten(batches[..|batches| - 1]), batches[|batches| - 1]);
    }
  }

  lemma {:induction false} FillAt(selector: set<Field>, last: Values, sent: seq<Values>, i: nat)
    requires selector <= last.Keys && i < |sent|
    ensures selector <= AdvanceAll(selector, last, sent[..i]).Keys
    ensures Fill(selector, last, sent)[i] == FillOne(selector, AdvanceAll(selector, last, sent[..i]), sent[i])
  {
    hide FillOne;
    LastKeys(selector, last, sent[..i]);
    if i < |sent| - 1 {
      FillAt(selector, last, sent[..|sent| - 1], i);
      assert sent[..|sent| - 1][..i] == sent[..i];
    }
  }

  lemma AdvanceAt(selector: set<Field>, last: Values, sent: seq<Values>, i: nat)
    requires i < |sent|
    ensures AdvanceAll(selector, last, sent[..i + 1]) ==
            Advance(selector, AdvanceAll(selector, last, sent[..i]), sent[i])
  {
    assert sent[..i + 1][..i] == sent[..i];
  }

  // ---- What filling leaves alone ----

  /** Disabled parameters are left as they are, sent parameters keep their value, and every report
      comes out complete; a later report has no influence on an earlier one. */
  lemma {:induction false} FillLeavesAlone(selector: set<Field>, last: Values, sent: seq<Values>, i: nat, f: Field)
    requires selector <= last.Keys && i < |sent|
    ensures var filled := Fill(selector, last, sent);
            && (f !in selector ==> (f in filled[i] <==> f in sent[i]))
            && (f in sent[i] ==> f in filled[i] && filled[i][f] == sent[i][f])
            && Complete(selector, filled[i])
            && filled[..i + 1] == Fill(selector, last, sent[..i + 1])
  {
    var n := |sent| - 1;
    if i < n {
      FillLeavesAlone(selector, last, sent[..n], i, f);
      assert sent[..n][..i + 1] == sent[..i + 1];
      assert Fill(selector, last, sent)[..n] == Fill(selector, last, sent[..n]);
    } else {
      LastKeys(selector, last, sent[..n]);
      assert sent[..i + 1] == sent;
    }
  }

  lemma {:induction false} CompleteIsUnchanged(selector: set<Field>, last: Values, full: seq<Values>)
    requires selector <= last.Keys && forall i :: 0 <= i < |full| ==> Complete(selector, full[i])
    ensures Fill(selector, last, full) == full
  {
    if full != [] {
      var n := |full| - 1;
      CompleteIsUnchanged(selector, last, full[..n]);
      LastKeys(selector, last, full[..n]);
      assert FillOne(selector, AdvanceAll(selector, last, full[..n]), full[n]) == full[n];
      assert full == full[..n] + [full[n]];
    }
  }

  /** Filling a filled batch again, whatever has been heard in between, changes nothing. */
  lemma FillIdempotent(selector: set<Field>, last: Values, later: Values, sent: seq<Values>)
    requires selector <= last.Keys && selector <= later.Keys
    ensures Fill(selector, later, Fill(selector, last, sent)) == Fill(selector, last, sent)
  {
    forall i | 0 <= i < |sent|
      ensures Complete(selector, Fill(selector, last, sent)[i])
    {
      FillLeavesAlone(selector, last, sent, i, ROSpecID);
    }
    CompleteIsUnchanged(selector, later, Fill(selector, last, sent));
  }

  /** A device that expects no parameter fills nothing in and remembers nothing; so it restores exactly
      the reports that were sent as they are. */
  lemma {:induction false} NothingExpectedNothingFilled(last: Values, sent: seq<Values>)
    ensures Fill({}, last, sent) == sent && AdvanceAll({}, last, sent) == last
  {
    if sent != [] {
      var n := |sent| - 1;
      NothingExpectedNothingFilled(last, sent[..n]);
      FillNone(last, sent[n]);
      assert sent == sent[..n] + [sent[n]];
    }
  }

  // ---- The device that does it, in place ----

  /** The target of a parameter pointer. */
  class Cell {
    var value: int

    constructor (value: int)
      ensures this.value == value
    {
      this.value := value;
    }
  }

  /** One tag report as received: a parameter that was not sent is a nil pointer, absent here. */
  class Entry {
    var fields: map<Field, Cell>

    constructor (fields: map<Field, Cell>)
      ensures this.fields == fields
    {
      this.fields := fields;
    }

    ghost function View(): Values
      reads this, fields.Values
    {
      map f | f in fields :: fields[f].value
    }
  }

  ghost function Views(tags: seq<Entry>): (views: seq<Values>)
    reads *
    decreases |tags|
    ensures |views| == |tags| && forall i :: 0 <= i < |tags| ==> views[i] == tags[i].View()
  {
    if tags == [] then [] else Views(tags[..|tags| - 1]) + [tags[|tags| - 1].View()]
  }

  class Decompressor {
    /** The parameters that reports are expected to carry. */
    var report: set<Field>
    /** Where the last value of each kind is kept; the pointers never change. */
    const lastData: map<Field, Cell>

    ghost predicate Valid() {
      && (forall f: Field :: f in lastData)
      && (forall f, g :: f in lastData && g in lastData && f != g ==> lastData[f] != lastData[g])
    }

    ghost function Last(): Values
      reads lastData.Values
    {
      map f | f in lastData :: lastData[f].value
    }

    /** No parameter of the entry points into `lastData`. */
    ghost predicate Apart(entry: Entry)
      reads entry
    {
      forall f, g :: f in entry.fields && g in lastData ==> entry.fields[f] != lastData[g]
    }

    /** One parameter of one report: fill it in, or remember it. The filled parameter gets a cell of
        its own, so that remembering a later value cannot change it. */
    method FillField(entry: Entry, f: Field)
      requires Valid() && Apart(entry) && f in report
      modifies entry, lastData[f]
      ensures Apart(entry)
      ensures entry.View() == FillOne({f}, old(Last()), old(entry.View()))
      ensures Last() == Advance({f}, old(Last()), old(entry.View()))
      ensures forall g :: g in entry.fields ==> g in old(entry.fields) || fresh(entry.fields[g])
      ensures forall g :: g in old(entry.fields) ==> g in entry.fields && entry.fields[g] == old(entry.fields)[g]
    {
      if f !in entry.fields {
        var cell := new Cell(lastData[f].value);
        entry.fields := entry.fields[f := cell];
        assert Last() == old(Last());
      } else {
        lastData[f].value := entry.fields[f].value;
        assert entry.View() == old(entry.View());
      }
    }

    /** A new device expects no parameter at all. */
    constructor ()
      ensures Valid() && report == {}
      ensures Last() == map f | f in FIELDS :: 0
      ensures forall f :: f in lastData ==> fresh(lastData[f])
    {
      var cells: map<Field, Cell> := map[];
      for k := 0 to |FIELDS|
        invariant forall f :: f in cells <==> f in FIELDS[..k]
        invariant forall f :: f in cells ==> fresh(cells[f]) && cells[f].value == 0
        invariant forall f, g :: f in cells && g in cells && f != g ==> cells[f] != cells[g]
      {
        var cell := new Cell(0);
        cells := cells[FIELDS[k] := cell];
        FieldsDistinct(k);
      }
      report := {};
      lastData := cells;
      new;
      assert FIELDS[..|FIELDS|] == FIELDS;
      forall f: Field
        ensures f in lastData
      {
        AllFields(f);
      }
    }

    /** The `k`-th parameter of one report, after those before it. */
    method FillKth(entry: Entry, k: nat, ghost last: Values, ghost sent: Values)
      requires Valid() && Apart(entry) && k < |FIELDS|
      requires FirstOf(report, k) <= last.Keys && FIELDS[k] in last
      requires entry.View() == FillOne(FirstOf(report, k), last, sent)
      requires Last() == Advance(FirstOf(report, k), last, sent)
      modifies entry, lastData.Values
      ensures Apart(entry)
      ensures FirstOf(report, k + 1) <= last.Keys
      ensures entry.View() == FillOne(FirstOf(report, k + 1), last, sent)
      ensures Last() == Advance(FirstOf(report, k + 1), last, sent)
    {
      hide FillOne, Advance, FirstOf;
      var f := FIELDS[k];
      FirstOfStep(report, k);
      if f in report {
        EveryKind(f);
        hide Valid;
        FillMore(FirstOf(report, k), last, sent, f);
        FillField(entry, f);
      } else {
        assert FirstOf(report, k) + {} == FirstOf(report, k);
      }
    }

    /** All parameters of one report. */
    method FillEntry(entry: Entry)
      requires Valid() && Apart(entry)
      modifies entry, lastData.Values
      ensures Apart(entry)
      ensures entry.View() == FillOne(report, old(Last()), old(entry.View()))
      ensures Last() == Advance(report, old(Last()), old(entry.View()))
    {
      ghost var sent, last := entry.View(), Last();
      assert forall f: Field :: f in last;
      FillNone(last, sent);
      FirstOfAll(report);
      hide FillOne, Advance, Valid, FirstOf, Apart, Last, Entry.View;
      for k := 0 to |FIELDS|
        invariant Apart(entry) && FirstOf(report, k) <= last.Keys
        invariant entry.View() == FillOne(FirstOf(report, k), last, sent)
        invariant Last() == Advance(FirstOf(report, k), last, sent)
      {
        FillKth(entry, k, last, sent);
      }
    }

    /** Filling one report of a batch does not touch the others, not even those filled before it. */
    method FillEntryAmong(tags: seq<Entry>, i: nat)
      requires Valid() && i < |tags|
      requires forall j :: 0 <= j < |tags| ==> Apart(tags[j])
      requires forall j, k :: 0 <= j < k < |tags| ==> tags[j] != tags[k]
      modifies tags[i], lastData.Values
      ensures forall j :: 0 <= j < |tags| ==> Apart(tags[j])
      ensures forall j :: 0 <= j < |tags| && j != i ==> tags[j].View() == old(tags[j].View())
      ensures tags[i].View() == FillOne(report, old(Last()), old(tags[i].View()))
      ensures Last() == Advance(report, old(Last()), old(tags[i].View()))
    {
      hide FillOne, Advance, Entry.View, Last;
      FillEntry(tags[i]);
      forall j | 0 <= j < |tags| && j != i
        ensures Apart(tags[j]) && tags[j].View() == old(tags[j].View())
      {
      }
    }

    /** The first `i` reports of a batch are filled, the others as they were sent. */
    ghost predicate FilledUpTo(tags: seq<Entry>, i: nat, last: Values, sent: seq<Values>)
      requires |sent| == |tags| && i <= |tags| && report <= last.Keys
      reads this, tags, set j, f | 0 <= j < |tags| && f in tags[j].fields :: tags[j].fields[f]
    {
      && (forall j :: 0 <= j < i ==> tags[j].View() == Fill(report, last, sent)[j])
      && (forall j :: i <= j < |tags| ==> tags[j].View() == sent[j])
    }

    method FillNext(tags: seq<Entry>, i: nat, ghost last: Values, ghost sent: seq<Values>)
      requires Valid() && |sent| == |tags| && i < |tags| && report <= last.Keys
      requires forall j :: 0 <= j < |tags| ==> Apart(tags[j])
      requires forall j, k :: 0 <= j < k < |tags| ==> tags[j] != tags[k]
      requires FilledUpTo(tags, i, last, sent) && Last() == AdvanceAll(report, last, sent[..i])
      modifies tags[i], lastData.Values
      ensures forall j :: 0 <= j < |tags| ==> Apart(tags[j])
      ensures FilledUpTo(tags, i + 1, last, sent) && Last() == AdvanceAll(report, last, sent[..i + 1])
    {
      hide FillOne, Advance, AdvanceAll, Entry.View, Fill, Last, Valid, Apart;
      FillAt(report, last, sent, i);
      AdvanceAt(report, last, sent, i);
      FillEntryAmong(tags, i);
    }

    /** `fillAmbiguousNil`: a whole batch, in order. */
    method FillAmbiguousNil(tags: seq<Entry>)
      requires Valid()
      requires forall i :: 0 <= i < |tags| ==> Apart(tags[i])
      requires forall i, j :: 0 <= i < j < |tags| ==> tags[i] != tags[j]
      modifies (set i | 0 <= i < |tags| :: tags[i]), lastData.Values
      ensures forall i :: 0 <= i < |tags| ==> Apart(tags[i])
      ensures Views(tags) == Fill(report, old(Last()), old(Views(tags)))
      ensures Last() == AdvanceAll(report, old(Last()), old(Views(tags)))
    {
      ghost var sent, last := Views(tags), Last();
      assert report <= last.Keys && sent[..0] == [];
      NoneFilled(tags, last);
      hide FilledUpTo, Fill, Last, Views, Valid, Apart;
      for i := 0 to |tags|
        invariant forall j :: 0 <= j < |tags| ==> Apart(tags[j])
        invariant FilledUpTo(tags, i, last, sent)
        invariant Last() == AdvanceAll(report, last, sent[..i])
      {
        hide AdvanceAll;
        FillNext(tags, i, last, sent);
      }
      assert sent[..|tags|] == sent;
      AllFilled(tags, last, sent);
    }

    lemma NoneFilled(tags: seq<Entry>, last: Values)
      requires report <= last.Keys
      ensures FilledUpTo(tags, 0, last, Views(tags))
    {
    }

    lemma AllFilled(tags: seq<Entry>, last: Values, sent: seq<Values>)
      requires |sent| == |tags| && report <= last.Keys && FilledUpTo(tags, |tags|, last, sent)
      ensures Views(tags) == Fill(report, last, sent)
    {
      assert forall j :: 0 <= j < |tags| ==> Views(tags)[j] == Fill(report, last, sent)[j];
    }

    lemma EveryKind(f: Field)
      requires Valid()
      ensures f in lastData && lastData[f] in lastData.Values
    {
    }
  }

  lemma FieldsDistinct(k: nat)
    requires k < |FIELDS|
    ensures FIELDS[k] !in FIELDS[..k]
    ensures FIELDS[..k + 1] == FIELDS[..k] + [FIELDS[k]]
  {
  }

  /** The enabled parameters among the first `k`. */
  ghost function FirstOf(selector: set<Field>, k: nat): set<Field>
    requires k <= |FIELDS|
  {
    set f | f in FIELDS[..k] && f in selector
  }

  lemma FirstOfStep(selector: set<Field>, k: nat)
    requires k < |FIELDS|
    ensures FIELDS[k] !in FirstOf(selector, k)
    ensures FirstOf(selector, k + 1) == FirstOf(selector, k) + if FIELDS[k] in selector then {FIELDS[k]} else {}
  {
    FieldsDistinct(k);
  }

  lemma FirstOfAll(selector: set<Field>)
    ensures FirstOf(selector, 0) == {}
    ensures FirstOf(selector, |FIELDS|) == selector
  {
    forall f | f in selector
      ensures f in FIELDS[..|FIELDS|]
    {
      AllFields(f);
    }
  }

  lemma FillNone(last: Values, sent: Values)
    ensures FillOne({}, last, sent) == sent && Advance({}, last, sent) == last
  {
  }

  /** Filling the parameters one after the other is filling them all at once. */
  lemma FillMore(done: set<Field>, last: Values, sent: Values, f: Field)
    requires done <= last.Keys && f in last && f !in done
    ensures FillOne({f}, Advance(done, last, sent), FillOne(done, last, sent)) == FillOne(done + {f}, last, sent)
    ensures Advance({f}, Advance(done, last, sent), FillOne(done, last, sent)) == Advance(done + {f}, last, sent)
  {
  }
}
