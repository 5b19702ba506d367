/** Whole runs of a tag processor: reports, sweeps and configuration changes in any order. */
module Actions {
  import opened TagReports
  import opened Inventory

  /** A sweep carries the order in which the map iteration happens to visit the tags. */
  datatype Action =
    | Report(report: seq<TagReportData>, deviceName: string, originNanos: int)
    | AggregateDeparted(nowNanos: int, order: seq<string>)
    | AgeOut(nowNanos: int, order: seq<string>)
    | UpdateConfig(cfg: CustomConfig)

  function OpsOf(config: ProcessorConfig, a: Action): seq<Op> {
    match a
    case Report(report, device, origin) => ReportOps(config, report, NewReportInfo(device, origin))
    case AggregateDeparted(now, order) => DepartOps(order, now)
    case AgeOut(now, order) => AgeOps(order, now)
    case UpdateConfig(cfg) => [ConfigOp(cfg)]
  }

  function Exec(s: InventoryState, acts: seq<Action>): Outcome {
    if acts == [] then Outcome(s, [])
    else
      var before := Exec(s, acts[..|acts| - 1]);
      var last := Run(before.state, OpsOf(before.state.config, acts[|acts| - 1]));
      Outcome(last.state, before.events + last.events)
  }

  /** The operations that a sequence of actions consists of. */
  function AllOps(s: InventoryState, acts: seq<Action>): seq<Op> {
    if acts == [] then []
    else
      var init := acts[..|acts| - 1];
      AllOps(s, init) + OpsOf(Exec(s, init).state.config, acts[|acts| - 1])
  }

  /** What holds of every run of operations holds of every run of actions. */
  lemma {:induction false} ExecIsRun(s: InventoryState, acts: seq<Action>)
    ensures Exec(s, acts) == Run(s, AllOps(s, acts))
  {
    hide Apply, OpsOf;
    if acts != [] {
      var init := acts[..|acts| - 1];
      ExecIsRun(s, init);
      RunConcat(s, AllOps(s, init), OpsOf(Exec(s, init).state.config, acts[|acts| - 1]));
    }
  }
}
