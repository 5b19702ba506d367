/** How reports reach the task loop: each reader of the group fills in what it left out, so that the
    inventory never notices the compression. */
module ReportFeeds {
  import opened TagReports
  import opened ReportFill

  /** What a reader of the group knows for filling; one that never fills expects no parameter. */
  datatype FillState = FillState(selector: set<Field>, last: Optionals)

  type Filler = f: FillState | f.selector <= f.last.Keys witness FillState({}, map[])

  /** The readers of the group, by name. */
  type Members = map<string, Filler>

  function Sent(report: seq<TagReportData>): seq<Values> {
    seq(|report|, i requires 0 <= i < |report| => report[i].optional)
  }

  ghost predicate AllInRange(values: seq<Values>) {
    forall i, f :: 0 <= i < |values| && f in values[i] ==> InRange(f, values[i][f])
  }

  lemma {:induction false} FillInRange(selector: set<Field>, last: Values, sent: seq<Values>)
    requires selector <= last.Keys && AllInRange([last]) && AllInRange(sent)
    ensures AllInRange(Fill(selector, last, sent)) && AllInRange([AdvanceAll(selector, last, sent)])
  {
    hide InRange;
    if sent == [] {
      assert [last][0] == last;
    } else {
      var n := |sent| - 1;
      assert AllInRange(sent[..n]) by {
        assert forall i :: 0 <= i < n ==> sent[..n][i] == sent[i];
      }
      FillInRange(selector, last, sent[..n]);
      LastKeys(selector, last, sent[..n]);
      var known := AdvanceAll(selector, last, sent[..n]);
      assert [known][0] == known;
    }
  }

  /** The report as its reader meant it. */
  function FilledBy(filler: Filler, report: seq<TagReportData>): seq<TagReportData> {
    FillerInRange(filler, report);
    var filled := Fill(filler.selector, filler.last, Sent(report));
    seq(|report|, i requires 0 <= i < |report| => report[i].(optional := filled[i]))
  }

  /** What the reader is known to have sent last, afterwards. */
  function AdvancedBy(filler: Filler, report: seq<TagReportData>): Filler {
    FillerInRange(filler, report);
    LastKeys(filler.selector, filler.last, Sent(report));
    filler.(last := AdvanceAll(filler.selector, filler.last, Sent(report)))
  }

  lemma FillerInRange(filler: Filler, report: seq<TagReportData>)
    ensures AllInRange(Fill(filler.selector, filler.last, Sent(report)))
    ensures forall f :: f in AdvanceAll(filler.selector, filler.last, Sent(report)) ==>
              InRange(f, AdvanceAll(filler.selector, filler.last, Sent(report))[f])
  {
    FillInRange(filler.selector, filler.last, Sent(report));
    var last := AdvanceAll(filler.selector, filler.last, Sent(report));
    assert [last][0] == last;
  }

  /** A report of a reader that is not in the group is left as it is. */
  function Filled(members: Members, device: string, report: seq<TagReportData>): seq<TagReportData> {
    if device in members then FilledBy(members[device], report) else report
  }

  function AfterReport(members: Members, device: string, report: seq<TagReportData>): Members {
    if device in members then members[device := AdvancedBy(members[device], report)] else members
  }

  /** A member is known by the value that it last sent of each parameter it is expected to send, and by
      what it was known by before if it sent none; a report says nothing about other members. */
  lemma ReportIsRemembered(members: Members, device: string, report: seq<TagReportData>, other: string, f: Field)
    requires device in members && f in members[device].last
    ensures var after := AfterReport(members, device, report);
            && after.Keys == members.Keys && (other in members && other != device ==> after[other] == members[other])
            && after[device].selector == members[device].selector && f in after[device].last
            && ((f !in members[device].selector || forall i :: 0 <= i < |report| ==> f !in report[i].optional) ==>
                  after[device].last[f] == members[device].last[f])
            && forall i :: 0 <= i < |report| && f in members[device].selector && f in report[i].optional
                           && (forall j :: i < j < |report| ==> f !in report[j].optional) ==>
                 after[device].last[f] == report[i].optional[f]
  {
    var filler := members[device];
    LatestIsRemembered(filler.selector, filler.last, Sent(report), f);
    hide AdvanceAll, InRange;
    assert forall i :: 0 <= i < |report| ==> Sent(report)[i] == report[i].optional;
  }

  // ---- Compression makes no difference ----

  /** `sent` is `full` as the reader may compress it. */
  ghost predicate Sends(members: Members, device: string, full: seq<TagReportData>, sent: seq<TagReportData>) {
    && |full| == |sent|
    && (device !in members ==> sent == full)
    && (device in members ==>
          && Compressed(members[device].selector, members[device].last, Sent(full), Sent(sent))
          && forall i :: 0 <= i < |full| ==> full[i] == sent[i].(optional := full[i].optional))
  }

  lemma FilledAsMeant(members: Members, device: string, full: seq<TagReportData>, sent: seq<TagReportData>)
    requires Sends(members, device, full, sent)
    ensures Filled(members, device, sent) == full
    ensures AfterReport(members, device, sent) == AfterReport(members, device, full)
  {
    if device in members {
      var filler := members[device];
      FillRestores(filler.selector, filler.last, Sent(full), Sent(sent));
      hide Compressed, Fill, AdvanceAll;
      forall i | 0 <= i < |full|
        ensures Filled(members, device, sent)[i] == full[i]
      {
        assert Sent(full)[i] == full[i].optional;
      }
    }
  }

  datatype Message = Message(device: string, report: seq<TagReportData>)

  function MembersAfter(members: Members, messages: seq<Message>): Members {
    if messages == [] then members
    else
      var last := messages[|messages| - 1];
      AfterReport(MembersAfter(members, messages[..|messages| - 1]), last.device, last.report)
  }

  /** What the processor gets to see. */
  function FilledAll(members: Members, messages: seq<Message>): seq<Message> {
    if messages == [] then []
    else
      var init, last := messages[..|messages| - 1], messages[|messages| - 1];
      FilledAll(members, init) + [Message(last.device, Filled(MembersAfter(members, init), last.device, last.report))]
  }

  /** Every reader compresses its own reports, against what it sent before. */
  ghost predicate AllSend(members: Members, full: seq<Message>, sent: seq<Message>) {
    && |full| == |sent|
    && forall i :: 0 <= i < |full| ==>
         && full[i].device == sent[i].device
         && Sends(MembersAfter(members, full[..i]), full[i].device, full[i].report, sent[i].report)
  }

  lemma AllSendInit(members: Members, full: seq<Message>, sent: seq<Message>)
    requires AllSend(members, full, sent)
    ensures |full| == |sent|
    ensures full != [] ==>
              var n := |full| - 1;
              && AllSend(members, full[..n], sent[..n])
              && full[n].device == sent[n].device
              && Sends(MembersAfter(members, full[..n]), full[n].device, full[n].report, sent[n].report)
  {
    hide Sends, MembersAfter;
    if full != [] {
      var n := |full| - 1;
      assert forall i :: 0 <= i < n ==> full[..n][..i] == full[..i];
    }
  }

  /** However the reports of the group's readers are compressed and interleaved, the processor sees
      the original reports. */
  lemma {:induction false} CompressionIsInvisible(members: Members, full: seq<Message>, sent: seq<Message>)
    requires AllSend(members, full, sent)
    ensures FilledAll(members, sent) == full
    ensures MembersAfter(members, sent) == MembersAfter(members, full)
  {
    hide Sends, AllSend, Filled, AfterReport;
    AllSendInit(members, full, sent);
    if full != [] {
      var n := |full| - 1;
      CompressionIsInvisible(members, full[..n], sent[..n]);
      FilledAsMeant(MembersAfter(members, full[..n]), full[n].device, full[n].report, sent[n].report);
      assert full == full[..n] + [full[n]];
    }
  }
}
