/** What the durable settings are after any course of requests: every landed patch, in commit order. */
module SettingsUpdates {
  import opened Results
  import opened SettingsMerge
  import opened SettingsRuns

  /** The patch that request `i` was sent with. */
  function PatchOf(events: seq<Event>, i: nat): Settings {
    if events == [] then Group(map[])
    else
      var k := |events| - 1;
      if events[k].Patch? && events[k].i == i then events[k].patch else PatchOf(events[..k], i)
  }

  /** The patches whose commits have landed, in order. */
  function Landed(events: seq<Event>): seq<Settings> {
    if events == [] then []
    else
      var k := |events| - 1;
      Landed(events[..k]) + if events[k].Land? then [PatchOf(events[..k], events[k].i)] else []
  }

  function MergedAll(rules: Rules, start: Settings, patches: seq<Settings>): Settings {
    if patches == [] then start
    else rules.merge(MergedAll(rules, start, patches[..|patches| - 1]), patches[|patches| - 1])
  }

  /** A request knows its own patch; under the barrier what it will commit is that patch over the
      durable settings of this moment. */
  ghost predicate Carries(rules: Rules, s: Sys, events: seq<Event>, i: nat) {
    i in s.reqs ==>
      match s.reqs[i]
      case Waiting(patch) => patch == PatchOf(events, i)
      case Holding(patch) => patch == PatchOf(events, i)
      case Merged(m) => s.barrier == Some(i) ==> m == rules.merge(s.durable, PatchOf(events, i))
      case Committing(m, landed) => s.barrier == Some(i) && !landed ==> m == rules.merge(s.durable, PatchOf(events, i))
      case _ => true
  }

  ghost predicate AllCarry(rules: Rules, s: Sys, events: seq<Event>) { forall i :: Carries(rules, s, events, i) }

  lemma PatchOfGrows(events: seq<Event>, e: Event, i: nat)
    ensures PatchOf(events + [e], i) == if e.Patch? && e.i == i then e.patch else PatchOf(events, i)
    ensures Landed(events + [e]) == Landed(events) + if e.Land? then [PatchOf(events, e.i)] else []
  {
    assert (events + [e])[..|events|] == events;
  }

  lemma StepCarries(rules: Rules, s: Sys, events: seq<Event>, e: Event)
    requires AllCarry(rules, s, events) && Step(rules, s, e).Some?
    ensures AllCarry(rules, Step(rules, s, e).value, events + [e])
  {
    forall i ensures Carries(rules, Step(rules, s, e).value, events + [e], i) {
      assert Carries(rules, s, events, i);
      PatchOfGrows(events, e, i);
    }
  }

  lemma StepMerges(rules: Rules, s: Sys, events: seq<Event>, e: Event)
    requires AllCarry(rules, s, events) && Step(rules, s, e).Some?
    ensures Step(rules, s, e).value.durable ==
            if e.Land? then rules.merge(s.durable, PatchOf(events, e.i)) else s.durable
  {
    assert Carries(rules, s, events, e.i);
  }

  lemma MergedSnoc(rules: Rules, start: Settings, patches: seq<Settings>, patch: Settings)
    ensures MergedAll(rules, start, patches + [patch]) == rules.merge(MergedAll(rules, start, patches), patch)
  {
    assert (patches + [patch])[..|patches|] == patches;
  }

  lemma {:induction false} RunCarries(rules: Rules, start: Settings, events: seq<Event>)
    requires Run(rules, Init(rules, start), events).Some?
    ensures var s := Run(rules, Init(rules, start), events).value;
            AllCarry(rules, s, events) && s.durable == MergedAll(rules, start, Landed(events))
    decreases |events|
  {
    if events != [] {
      var k := |events| - 1;
      var s := Run(rules, Init(rules, start), events[..k]).value;
      RunCarries(rules, start, events[..k]);
      assert events == events[..k] + [events[k]];
      StepCarries(rules, s, events[..k], events[k]);
      StepMerges(rules, s, events[..k], events[k]);
      PatchOfGrows(events[..k], events[k], events[k].i);
      if events[k].Land? {
        MergedSnoc(rules, start, Landed(events[..k]), PatchOf(events[..k], events[k].i));
      } else {
        assert Landed(events) == Landed(events[..k]);
      }
    }
  }

  /** No update is lost: whatever the interleaving, the failures and the lost barriers, the durable
      settings are the first ones with every landed patch merged over them in commit order. */
  lemma NoUpdateIsLost(rules: Rules, start: Settings, events: seq<Event>)
    requires Run(rules, Init(rules, start), events).Some?
    ensures Run(rules, Init(rules, start), events).value.durable == MergedAll(rules, start, Landed(events))
  {
    RunCarries(rules, start, events);
  }

  /** Nobody takes the barrier away: it ends with the holder's own step or the loss of its connection. */
  lemma BarrierIsKept(rules: Rules, s: Sys, e: Event, i: nat)
    requires s.barrier == Some(i) && Step(rules, s, e).Some?
    ensures Step(rules, s, e).value.barrier != Some(i) ==>
            e.i == i && (e.LoseBarrier? || e.Fail? || e.Leave? || e.CompareDurable?)
  {
  }

  // With the merge the server uses

  /** Empty stored settings stand for the defaults. */
  function OrDefaults(defaults: Setting, s: Setting): Setting { if s == Group(map[]) then defaults else s }

  function ServerRules(defaults: Setting, resolve: Setting -> Storage): Rules {
    Rules((current, patch) => Overlaid(OrDefaults(defaults, current), patch), resolve)
  }

  ghost predicate Dictionaries(events: seq<Event>) { forall e :: e in events && e.Patch? ==> e.patch.Group? }

  ghost predicate Filled(s: Setting) { s.Group? && s.members != map[] }

  ghost predicate AllGroups(patches: seq<Setting>) { forall p :: p in patches ==> p.Group? }

  lemma {:induction false} LandedAreGroups(events: seq<Event>)
    requires Dictionaries(events)
    ensures AllGroups(Landed(events)) && forall i :: PatchOf(events, i).Group?
    decreases |events|
  {
    if events != [] {
      var k := |events| - 1;
      assert forall e :: e in events[..k] ==> e in events;
      assert events[k] in events;
      LandedAreGroups(events[..k]);
    }
  }

  lemma FilledStays(base: Setting, patch: Setting)
    requires Filled(base) && patch.Group?
    ensures Filled(Overlaid(base, patch))
  {
    var k :| k in base.members;
    assert k in Overlaid(base, patch).members;
  }

  lemma {:induction false} MergedIsOverlaid(defaults: Setting, resolve: Setting -> Storage, start: Setting, patches: seq<Setting>)
    requires Filled(defaults) && start.Group? && AllGroups(patches)
    ensures var rules := ServerRules(defaults, resolve);
            var end := OrDefaults(defaults, MergedAll(rules, start, patches));
            end == OverlaidAll(OrDefaults(defaults, start), patches) && Filled(end)
    decreases |patches|
  {
    if patches != [] {
      var k := |patches| - 1;
      assert patches[k] in patches && forall p :: p in patches[..k] ==> p in patches;
      MergedIsOverlaid(defaults, resolve, start, patches[..k]);
      FilledStays(OverlaidAll(OrDefaults(defaults, start), patches[..k]), patches[k]);
    }
  }

  /** What the settings show at a path after any run: the last landed patch that says something there
      wins, and a path that no landed patch touches shows what it showed at the start. */
  lemma LastLandedPatchWins(defaults: Setting, resolve: Setting -> Storage, start: Setting, events: seq<Event>, p: Path, v: nat)
    requires Filled(defaults) && start.Group? && Dictionaries(events)
    requires var rules := ServerRules(defaults, resolve); Run(rules, Init(rules, start), events).Some?
    ensures var rules := ServerRules(defaults, resolve);
            var s := Run(rules, Init(rules, start), events).value;
            ScalarAt(OrDefaults(defaults, s.durable), p, v) <==>
            || LastWord(Landed(events), p, v)
            || (ScalarAt(OrDefaults(defaults, start), p, v) && !TouchedFrom(Landed(events), 0, p))
  {
    NoUpdateIsLost(ServerRules(defaults, resolve), start, events);
    LandedAreGroups(events);
    MergedIsOverlaid(defaults, resolve, start, Landed(events));
    LastWordWins(OrDefaults(defaults, start), Landed(events), p, v);
  }
}
