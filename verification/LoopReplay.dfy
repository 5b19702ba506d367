/** Across crashes and restarts, the persisted events still tell where every present tag is. */
module LoopReplays {
  import opened Basics
  import opened Locations
  import opened Inventory
  import opened Actions
  import opened Replays
  import opened Snapshots
  import opened TaskLoops

  /** A named device and an antenna on every read, and the same aliases in every configuration. */
  ghost predicate PlainInput(input: Input, aliases: map<string, string>) {
    match input
    case Restart(cfg) => cfg.aliases - {""} == aliases
    case _ => ActionOf(input).Some? ==> PlainAction(ActionOf(input).value, aliases)
  }

  /** The inventory that the file would restore to under the present configuration. */
  function Filed(l: Loop): InventoryState {
    InventoryState(RestoreTags(l.file), l.live.config)
  }

  /** File, waiting events and live inventory agree on where the tags are, and so does the log. */
  ghost predicate PlacesAgree(l: Loop) {
    && Located(l.live) && Located(Filed(l))
    && (!l.stage.Persisting? ==> Placed(Filed(l)) == Placed(l.live))
    && (l.stage.Persisting? ==> Replay(Placed(Filed(l)), l.stage.events) == Some(Placed(l.live)))
    && Replay(map[], Persisted(l)) == Some(Placed(Filed(l)))
  }

  lemma ProcessPlaces(s: InventoryState, a: Action)
    requires KeyedByEPC(s) && Located(s) && PlainAction(a, s.config.aliases)
    ensures var out := Run(s, OpsOf(s.config, a));
            && Located(out.state) && out.state.config.aliases == s.config.aliases
            && Replay(Placed(s), out.events) == Some(Placed(out.state))
  {
    hide Run, Located, Placed, Apply, Locates;
    var ops := OpsOf(s.config, a);
    PlainOpsLocate(s, ops);
    LogTellsWhere(s, ops);
    AtTheEnd(s, ops);
  }

  /** Placement depends on the tags and the aliases alone. */
  lemma PlacedByAliases(tags: map<string, TagRecord>, c: ProcessorConfig, c': ProcessorConfig)
    requires c.aliases == c'.aliases
    ensures Placed(InventoryState(tags, c)) == Placed(InventoryState(tags, c'))
  {
    assert forall loc: Location :: c.Alias(loc) == c'.Alias(loc);
  }

  lemma MirrorTag(snap: seq<StaticTag>, s: InventoryState, e: string)
    requires Mirrors(snap, s)
    ensures e in RestoreTags(snap) <==> e in s.tags
    ensures e in s.tags ==>
              RestoreTags(snap)[e].state == s.tags[e].state && RestoreTags(snap)[e].location == s.tags[e].location
  {
    RestoredTags(snap);
    hide RestoreTags, ProcessorConfig.Alias, StaticStats;
    if e in s.tags {
      assert Lists(snap, e);
      var i :| 0 <= i < |snap| && snap[i].epc == e;
      assert snap[i].(locationAlias := "").location == snap[i].location;
      assert snap[i].(locationAlias := "").state == snap[i].state;
    }
  }

  lemma MirrorPlaces(snap: seq<StaticTag>, s: InventoryState)
    requires Mirrors(snap, s)
    ensures var r := InventoryState(RestoreTags(snap), s.config);
            Placed(r) == Placed(s) && (Located(s) ==> Located(r))
  {
    hide Mirrors, RestoreTags, ProcessorConfig.Alias, Location.IsEmpty;
    forall e
      ensures e in RestoreTags(snap) <==> e in s.tags
      ensures e in s.tags ==>
                RestoreTags(snap)[e].state == s.tags[e].state && RestoreTags(snap)[e].location == s.tags[e].location
    {
      MirrorTag(snap, s, e);
    }
  }

  lemma ProcessStepPlaces(l: Loop, input: Input, l': Loop)
    requires Invariant(l) && PlacesAgree(l) && Step(l, input, l') && ActionOf(input).Some?
    requires PlainInput(input, l.live.config.aliases)
    ensures PlacesAgree(l') && l'.live.config.aliases == l.live.config.aliases
  {
    var a := ActionOf(input).value;
    var out := Process(l, a);
    ProcessPlaces(l.live, a);
    ReplayNothing(Placed(l.live));
    assert l'.live == out.state;
    PlacedByAliases(RestoreTags(l.file), l.live.config, l'.live.config);
    if input.AgeOutTick? {
      AgeOutSilent(l.live, input.order, input.nowNanos);
    }
    if input.ConfigArrives? {
      RunOfConfig(l.live, input.cfg);
    }
    HistoryGrows(l, input, l');
    assert l'.file == l.file && !l.stage.Persisting?;
    assert l'.stage == (if out.events == [] then Waiting else Persisting(out.events)) || l'.stage == Persisting([]);
    hide Step, Process, Run, Placed, Replay, RestoreTags, PlainAction, OpsOf, IsSnapshot, KeyedByEPC, Mirrors,
      Persisted, Invariant;
    assert Located(Filed(l'));
  }

  lemma PersistStepPlaces(l: Loop, l': Loop)
    requires Invariant(l) && PlacesAgree(l) && Step(l, Persist, l')
    ensures PlacesAgree(l') && l'.live.config == l.live.config
  {
    MirrorPlaces(l.cached, l.live);
    PersistAdds(l, l');
    assert l'.live == l.live && l'.file == l.cached && !l'.stage.Persisting?;
    hide Step, Placed, RestoreTags, Mirrors, Invariant, Located, Replay, Persisted;
    if l.stage.Persisting? {
      ReplayConcat(map[], Persisted(l), l.stage.events);
    } else {
      assert Persisted(l) + [] == Persisted(l);
    }
  }

  lemma StepPlaces(l: Loop, input: Input, l': Loop)
    requires Invariant(l) && PlacesAgree(l) && Step(l, input, l') && PlainInput(input, l.live.config.aliases)
    ensures PlacesAgree(l') && l'.live.config.aliases == l.live.config.aliases
  {
    if ActionOf(input).Some? {
      ProcessStepPlaces(l, input, l');
    } else {
      HistoryGrows(l, input, l');
      hide Placed, RestoreTags, Mirrors, Located, Replay, Process, Persisted, IsSnapshot;
      match input {
        case Persist => PersistStepPlaces(l, l');
        case Restart(cfg) =>
          PlacedByAliases(RestoreTags(l.file), l.live.config, l'.live.config);
          SameTagsLocated(Filed(l), l'.live);
        case _ =>
      }
    }
  }

  lemma SameTagsLocated(s: InventoryState, s': InventoryState)
    requires s.tags == s'.tags && Located(s)
    ensures Located(s')
  {
  }

  /** Over every run of the loop with plain inputs, whatever crashes it suffers: unless a change is
      about to be persisted, replaying the persisted events of all its lives gives the present tags' locations. */
  lemma {:induction false} LogSurvivesRestarts(ls: seq<Loop>, inputs: seq<Input>, cfg: CustomConfig, i: nat)
    requires IsRun(ls, inputs, cfg) && i < |ls|
    requires forall k :: 0 <= k < i ==> PlainInput(inputs[k], cfg.aliases - {""})
    ensures PlacesAgree(ls[i]) && ls[i].live.config.aliases == cfg.aliases - {""}
    ensures !ls[i].stage.Persisting? ==> Replay(map[], Persisted(ls[i])) == Some(Placed(ls[i].live))
  {
    if i == 0 {
      assert Placed(ls[0].live) == map[];
    } else {
      LogSurvivesRestarts(ls, inputs, cfg, i - 1);
      InvariantOverRuns(ls, inputs, cfg, i - 1);
      hide Step, Invariant, PlainInput, Placed, Located;
      StepPlaces(ls[i - 1], inputs[i - 1], ls[i]);
    }
  }
}
