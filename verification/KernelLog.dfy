/**
The kernel-log alerts of internal/ui/kernlog.go: events are grouped per alert key, and a group stays
up for a window after its last event. Composed with the alert engine, a flood is one alert.
*/
module KernelLog {
  import Alerts
  import opened Wrappers

  datatype Kind = UnderVoltage | StorageError | OOMKill

  datatype Event = Event(kind: Kind, at: int, device: string)

  datatype Group = Group(kind: Kind, device: string, first: int, last: int, count: nat)

  datatype Log = Log(
    groups: map<string, Group>,
    underVoltage: nat,
    underVoltageLast: int,
    ioErrors: map<string, nat>,
    ioLast: map<string, int>)

  const EMPTY := Log(map[], 0, 0, map[], map[])

  function DiskKey(device: string): string {
    "kio:" + device
  }

  function KeyOf(ev: Event): string {
    if ev.kind.UnderVoltage? then "kuv" else DiskKey(ev.device)
  }

  // OOM kills go elsewhere, and so do errors of a disk whose every mount is hidden.
  predicate Accepted(ev: Event, hidden: set<string>) {
    ev.kind.UnderVoltage? || (ev.kind.StorageError? && ev.device !in hidden)
  }

  function Tally(m: map<string, nat>, k: string): nat {
    if k in m then m[k] else 0
  }

  // ----- one observation -----

  function Added(log: Log, ev: Event, hidden: set<string>): Log {
    if !Accepted(ev, hidden) then log
    else
      var g := if KeyOf(ev) in log.groups then log.groups[KeyOf(ev)] else Group(ev.kind, ev.device, ev.at, ev.at, 0);
      var groups := log.groups[KeyOf(ev) := g.(last := ev.at, count := g.count + 1)];
      if ev.kind.UnderVoltage? then
        log.(groups := groups, underVoltage := log.underVoltage + 1, underVoltageLast := ev.at)
      else
        log.(groups := groups, ioErrors := log.ioErrors[ev.device := Tally(log.ioErrors, ev.device) + 1],
             ioLast := log.ioLast[ev.device := ev.at])
  }

  function AddedAll(log: Log, evs: seq<Event>, hidden: set<string>): Log {
    if evs == [] then log
    else Added(AddedAll(log, evs[..|evs| - 1], hidden), evs[|evs| - 1], hidden)
  }

  predicate Young(g: Group, now: int, window: int) {
    now - g.last < window
  }

  function Expired(groups: map<string, Group>, now: int, window: int): map<string, Group> {
    map k | k in groups && Young(groups[k], now, window) :: groups[k]
  }

  function Observed(log: Log, evs: seq<Event>, now: int, window: int, hidden: set<string>): Log {
    var all := AddedAll(log, evs, hidden);
    all.(groups := Expired(all.groups, now, window))
  }

  function CondOf(g: Group, describe: Group -> string): Alerts.Cond {
    Alerts.Cond(if g.kind.UnderVoltage? then Alerts.Warn else Alerts.Crit, describe(g))
  }

  function Conditions(groups: map<string, Group>, now: int, window: int, describe: Group -> string): map<string, Alerts.Cond> {
    map k | k in groups && Young(groups[k], now, window) :: CondOf(groups[k], describe)
  }

  // ----- the code -----

  class KernelLog {
    var groups: map<string, Group>
    var underVoltage: nat
    var underVoltageLast: int
    var ioErrors: map<string, nat>
    var ioLast: map<string, int>

    function View(): Log
      reads this
    {
      Log(groups, underVoltage, underVoltageLast, ioErrors, ioLast)
    }

    constructor ()
      ensures View() == EMPTY
    {
      groups, underVoltage, underVoltageLast, ioErrors, ioLast := map[], 0, 0, map[], map[];
    }

    method Observe(evs: seq<Event>, now: int, window: int, hidden: set<string>)
      modifies this
      ensures View() == Observed(old(View()), evs, now, window, hidden)
    {
      for i := 0 to |evs|
        invariant View() == AddedAll(old(View()), evs[..i], hidden)
      {
        assert evs[..i + 1][..i] == evs[..i];
        Add(evs[i], hidden);
      }
      assert evs[..|evs|] == evs;
      Expire(now, window);
    }

    // One pass of the first loop of observe.
    method Add(ev: Event, hidden: set<string>)
      modifies this
      ensures View() == Added(old(View()), ev, hidden)
    {
      var key: string;
      match ev.kind {
        case UnderVoltage =>
          key := "kuv";
          underVoltage := underVoltage + 1;
          underVoltageLast := ev.at;
        case StorageError =>
          if ev.device in hidden {
            return;
          }
          key := "kio:" + ev.device;
          ioErrors := ioErrors[ev.device := Tally(ioErrors, ev.device) + 1];
          ioLast := ioLast[ev.device := ev.at];
        case OOMKill => return;
      }
      if key !in groups {
        groups := groups[key := Group(ev.kind, ev.device, ev.at, ev.at, 0)];
      }
      var g := groups[key];
      groups := groups[key := g.(last := ev.at, count := g.count + 1)];
    }

    // The second loop of observe: drop the groups that have aged out, in any order.
    method Expire(now: int, window: int)
      modifies `groups
      ensures groups == Expired(old(groups), now, window)
    {
      var todo := groups.Keys;
      while todo != {}
        invariant todo <= old(groups).Keys
        invariant groups == map k | k in old(groups) && (k in todo || Young(old(groups)[k], now, window)) :: old(groups)[k]
        decreases todo
      {
        var k :| k in todo;
        if now - groups[k].last >= window {
          groups := groups - {k};
        }
        todo := todo - {k};
      }
    }

    method Conds(conds: map<string, Alerts.Cond>, now: int, window: int, describe: Group -> string)
      returns (r: map<string, Alerts.Cond>)
      ensures r == conds + Conditions(groups, now, window, describe)
    {
      r := conds;
      var todo := groups.Keys;
      ghost var seen: map<string, Group> := map[];
      while todo != {}
        invariant todo <= groups.Keys
        invariant seen == map k | k in groups && k !in todo :: groups[k]
        invariant r == conds + Conditions(seen, now, window, describe)
        decreases todo
      {
        var k :| k in todo;
        var g := groups[k];
        if now - g.last < window {
          r := r[k := CondOf(g, describe)];
        }
        todo := todo - {k};
        seen := seen[k := g];
      }
      assert seen == groups;
    }
  }

  // ----- the log and the alert engine together -----

  // Draining the log, and ticking; every other source of conditions is in `others`.
  datatype Step =
    | Drain(now: int, evs: seq<Event>, hidden: set<string>)
    | Tick(now: int, others: map<string, Alerts.Cond>, describe: Group -> string)

  function LogAfter(steps: seq<Step>, window: int): Log {
    if steps == [] then EMPTY
    else
      var n := |steps| - 1;
      var before := LogAfter(steps[..n], window);
      match steps[n]
      case Drain(now, evs, hidden) => Observed(before, evs, now, window, hidden)
      case Tick(_, _, _) => before
  }

  // What the alert engine is given over the run.
  function Inputs(steps: seq<Step>, window: int): seq<Alerts.Input> {
    if steps == [] then []
    else
      var n := |steps| - 1;
      Inputs(steps[..n], window) +
      match steps[n] {
        case Drain(_, _, _) => []
        case Tick(now, others, describe) =>
          [Alerts.Input(others + Conditions(LogAfter(steps[..n], window).groups, now, window, describe), now)]
      }
  }

  ghost predicate TimesNeverFall(steps: seq<Step>) {
    forall i, j :: 0 <= i < j < |steps| ==> steps[i].now <= steps[j].now
  }

  // Nothing else reports under the disk's key.
  ghost predicate KeyIsOurs(steps: seq<Step>, disk: string) {
    forall i :: 0 <= i < |steps| && steps[i].Tick? ==> DiskKey(disk) !in steps[i].others
  }

  // At every tick the disk has either never failed or its recorded last error is younger than the window.
  ghost predicate AlwaysRecent(steps: seq<Step>, window: int, disk: string) {
    forall i :: 0 <= i < |steps| && steps[i].Tick? ==>
      var last := LogAfter(steps[..i], window).ioLast;
      disk in last ==> steps[i].now - last[disk] < window
  }

  // The group of a disk carries the disk's last error; without a group that error is too old.
  ghost predicate DiskInv(log: Log, now: int, window: int, disk: string) {
    && (DiskKey(disk) in log.groups ==>
          && disk in log.ioLast && log.groups[DiskKey(disk)].last == log.ioLast[disk]
          && log.groups[DiskKey(disk)].kind.StorageError?)
    && (disk in log.ioLast && DiskKey(disk) !in log.groups ==> now - log.ioLast[disk] >= window)
  }

  lemma KeysInjective(a: string, b: string)
    ensures DiskKey(a) == DiskKey(b) ==> a == b
    ensures DiskKey(a) != "kuv"
  {
    assert DiskKey(a)[4..] == a && DiskKey(b)[4..] == b;
    assert DiskKey(a)[1] == 'i';
  }

  lemma AddedKeepsDiskInv(log: Log, ev: Event, hidden: set<string>, now: int, window: int, disk: string)
    requires DiskInv(log, now, window, disk)
    ensures DiskInv(Added(log, ev, hidden), now, window, disk)
  {
    KeysInjective(disk, ev.device);
  }

  lemma {:induction false} AddedAllKeepsDiskInv(log: Log, evs: seq<Event>, hidden: set<string>, now: int, window: int, disk: string)
    requires DiskInv(log, now, window, disk)
    ensures DiskInv(AddedAll(log, evs, hidden), now, window, disk)
  {
    if evs != [] {
      var n := |evs| - 1;
      AddedAllKeepsDiskInv(log, evs[..n], hidden, now, window, disk);
      AddedKeepsDiskInv(AddedAll(log, evs[..n], hidden), evs[n], hidden, now, window, disk);
    }
  }

  lemma {:induction false} RunKeepsDiskInv(steps: seq<Step>, now: int, window: int, disk: string)
    requires TimesNeverFall(steps) && (steps != [] ==> steps[|steps| - 1].now <= now)
    ensures DiskInv(LogAfter(steps, window), now, window, disk)
  {
    if steps != [] {
      hide AddedAll;
      var n := |steps| - 1;
      RunKeepsDiskInv(steps[..n], steps[n].now, window, disk);
      if steps[n].Drain? {
        AddedAllKeepsDiskInv(LogAfter(steps[..n], window), steps[n].evs, steps[n].hidden, steps[n].now, window, disk);
      }
    }
  }

  // A key that is only ever critical, from some point on at every update, is announced once.
  ghost predicate CritFrom(ins: seq<Alerts.Input>, k: string, m: nat) {
    forall i :: 0 <= i < |ins| ==>
      if i < m then k !in ins[i].conds else k in ins[i].conds && ins[i].conds[k].sev.Crit?
  }

  lemma {:induction false} SteadyCritIsOneEvent(ins: seq<Alerts.Input>, k: string, m: nat, ticks: nat)
    requires ticks >= 1 && m <= |ins| && CritFrom(ins, k, m)
    ensures m < |ins| ==> Alerts.SeverityOf(Alerts.StateAfter(ins, k, ticks)) == Some(Alerts.Crit)
    ensures m == |ins| ==> Alerts.StateAfter(ins, k, ticks) == None
    ensures |Alerts.EventsOf(ins, k, ticks)| == if m < |ins| then 1 else 0
    ensures m < |ins| ==> Alerts.EventsOf(ins, k, ticks)[0].sev.Crit? && !Alerts.EventsOf(ins, k, ticks)[0].cleared
  {
    if ins != [] {
      SteadyCritIsOneEvent(ins[..|ins| - 1], k, if m < |ins| then m else m - 1, ticks);
    }
  }

  // Over a run, the inputs have the disk's condition, critical, from the first tick after its first
  // error on.
  lemma {:induction false} FloodInputs(steps: seq<Step>, window: int, disk: string) returns (m: nat)
    requires window > 0 && TimesNeverFall(steps) && KeyIsOurs(steps, disk) && AlwaysRecent(steps, window, disk)
    ensures m <= |Inputs(steps, window)| && CritFrom(Inputs(steps, window), DiskKey(disk), m)
    ensures m < |Inputs(steps, window)| ==> disk in LogAfter(steps, window).ioLast
    ensures steps != [] && steps[|steps| - 1].Tick? ==>
              (m < |Inputs(steps, window)| <==> disk in LogAfter(steps, window).ioLast)
  {
    if steps == [] {
      return 0;
    }
    var n := |steps| - 1;
    var pre := steps[..n];
    forall i | 0 <= i < n ensures pre[..i] == steps[..i] {}
    m := FloodInputs(pre, window, disk);
    if steps[n].Drain? {
      assert Inputs(steps, window) == Inputs(pre, window);
      IoLastGrows(LogAfter(pre, window), steps[n].evs, steps[n].hidden, disk);
    } else {
      RunKeepsDiskInv(pre, steps[n].now, window, disk);
      TickCondition(LogAfter(pre, window), steps[n], window, disk);
      if disk !in LogAfter(pre, window).ioLast {
        m := m + 1;
      }
    }
  }

  lemma TickCondition(log: Log, tick: Step, window: int, disk: string)
    requires tick.Tick? && DiskKey(disk) !in tick.others && DiskInv(log, tick.now, window, disk)
    requires disk in log.ioLast ==> tick.now - log.ioLast[disk] < window
    ensures var conds := tick.others + Conditions(log.groups, tick.now, window, tick.describe);
            if disk in log.ioLast then DiskKey(disk) in conds && conds[DiskKey(disk)].sev.Crit?
            else DiskKey(disk) !in conds
  {}

  lemma {:induction false} IoLastGrows(log: Log, evs: seq<Event>, hidden: set<string>, disk: string)
    ensures disk in log.ioLast ==> disk in AddedAll(log, evs, hidden).ioLast
  {
    if evs != [] {
      IoLastGrows(log, evs[..|evs| - 1], hidden, disk);
    }
  }

  // If at every tick the disk's last error is younger than the window, then however many errors
  // there are and however they are batched, the engine raises the disk once and never clears it.
  lemma FloodIsOneAlert(steps: seq<Step>, window: int, disk: string, ticks: nat)
    requires window > 0 && ticks >= 1
    requires TimesNeverFall(steps) && KeyIsOurs(steps, disk) && AlwaysRecent(steps, window, disk)
    requires steps != [] && steps[|steps| - 1].Tick? && disk in LogAfter(steps, window).ioLast
    ensures var events := Alerts.EventsOf(Inputs(steps, window), DiskKey(disk), ticks);
            |events| == 1 && !events[0].cleared && events[0].sev.Crit?
  {
    var m := FloodInputs(steps, window, disk);
    SteadyCritIsOneEvent(Inputs(steps, window), DiskKey(disk), m, ticks);
  }

  // ----- what the log holds, from the events alone -----

  // What a group is about.
  datatype Source = Volts | Disk(device: string)

  function SourceKey(src: Source): string {
    match src
    case Volts => "kuv"
    case Disk(device) => "kio:" + device
  }

  predicate IsFrom(ev: Event, src: Source, hidden: set<string>) {
    match src
    case Volts => ev.kind.UnderVoltage?
    case Disk(device) => ev.kind.StorageError? && ev.device == device && device !in hidden
  }

  // The events of one source, in order.
  function From(evs: seq<Event>, src: Source, hidden: set<string>): seq<Event> {
    if evs == [] then []
    else From(evs[..|evs| - 1], src, hidden) + (if IsFrom(evs[|evs| - 1], src, hidden) then [evs[|evs| - 1]] else [])
  }

  // All of them in the session.
  function Session(steps: seq<Step>, src: Source): seq<Event> {
    if steps == [] then []
    else
      var last := steps[|steps| - 1];
      Session(steps[..|steps| - 1], src) + (if last.Drain? then From(last.evs, src, last.hidden) else [])
  }

  // Those since it last went quiet: a drain that finds the latest of them a window old forgets them.
  function Episode(steps: seq<Step>, window: int, src: Source): seq<Event> {
    if steps == [] then []
    else
      var pre, last := Episode(steps[..|steps| - 1], window, src), steps[|steps| - 1];
      if last.Tick? then pre
      else
        var all := pre + From(last.evs, src, last.hidden);
        if all != [] && last.now - all[|all| - 1].at < window then all else []
  }

  // The group under a key tells of exactly these events: the first, the last and how many.
  ghost predicate GroupTells(groups: map<string, Group>, key: string, kind: Kind, evs: seq<Event>) {
    if evs == [] then key !in groups
    else
      && key in groups
      && groups[key] == Group(kind, evs[0].device, evs[0].at, evs[|evs| - 1].at, |evs|)
  }

  function KindOf(src: Source): Kind {
    if src.Volts? then UnderVoltage else StorageError
  }

  lemma SourceKeysDiffer(src: Source, ev: Event, hidden: set<string>)
    requires Accepted(ev, hidden)
    ensures KeyOf(ev) == SourceKey(src) <==> IsFrom(ev, src, hidden)
  {
    if src.Disk? {
      KeysInjective(src.device, ev.device);
    }
    assert DiskKey(ev.device)[1] == 'i';
  }

  lemma AddedTells(log: Log, ev: Event, hidden: set<string>, src: Source, evs: seq<Event>)
    requires GroupTells(log.groups, SourceKey(src), KindOf(src), evs)
    ensures GroupTells(Added(log, ev, hidden).groups, SourceKey(src), KindOf(src), evs + (if IsFrom(ev, src, hidden) then [ev] else []))
  {
    hide DiskKey;
    assert evs + [] == evs;
    if Accepted(ev, hidden) {
      SourceKeysDiffer(src, ev, hidden);
    }
  }

  lemma {:induction false} AddedAllTells(log: Log, evs: seq<Event>, hidden: set<string>, src: Source, before: seq<Event>)
    requires GroupTells(log.groups, SourceKey(src), KindOf(src), before)
    ensures GroupTells(AddedAll(log, evs, hidden).groups, SourceKey(src), KindOf(src), before + From(evs, src, hidden))
  {
    if evs == [] {
      assert before + [] == before;
    } else {
      var n := |evs| - 1;
      AddedAllTells(log, evs[..n], hidden, src, before);
      AddedTells(AddedAll(log, evs[..n], hidden), evs[n], hidden, src, before + From(evs[..n], src, hidden));
      hide GroupTells, Added;
      var more := if IsFrom(evs[n], src, hidden) then [evs[n]] else [];
      assert before + (From(evs[..n], src, hidden) + more) == (before + From(evs[..n], src, hidden)) + more;
    }
  }

  lemma ExpiredTells(groups: map<string, Group>, now: int, window: int, key: string, kind: Kind, evs: seq<Event>)
    requires GroupTells(groups, key, kind, evs)
    ensures GroupTells(Expired(groups, now, window), key, kind, if evs != [] && now - evs[|evs| - 1].at < window then evs else [])
  {}

  // Over any run the group of a source is there exactly while the source is not quiet, and tells of
  // exactly its events since.
  lemma {:induction false} GroupIsEpisode(steps: seq<Step>, window: int, src: Source)
    ensures GroupTells(LogAfter(steps, window).groups, SourceKey(src), KindOf(src), Episode(steps, window, src))
  {
    if steps != [] {
      var pre, last := steps[..|steps| - 1], steps[|steps| - 1];
      GroupIsEpisode(pre, window, src);
      if last.Drain? {
        var log, before := LogAfter(pre, window), Episode(pre, window, src);
        AddedAllTells(log, last.evs, last.hidden, src, before);
        hide AddedAll, From;
        var all := before + From(last.evs, src, last.hidden);
        ExpiredTells(AddedAll(log, last.evs, last.hidden).groups, last.now, window, SourceKey(src), KindOf(src), all);
        hide GroupTells, Expired;
      }
    }
  }

  // There are no groups but those of sources.
  ghost predicate OnlySources(groups: map<string, Group>) {
    forall key :: key in groups ==> exists src :: key == SourceKey(src)
  }

  lemma KeyIsSource(ev: Event)
    ensures KeyOf(ev) == SourceKey(if ev.kind.UnderVoltage? then Volts else Disk(ev.device))
  {}

  lemma {:induction false} AddedAllSources(log: Log, evs: seq<Event>, hidden: set<string>)
    requires OnlySources(log.groups)
    ensures OnlySources(AddedAll(log, evs, hidden).groups)
  {
    if evs != [] {
      AddedAllSources(log, evs[..|evs| - 1], hidden);
      KeyIsSource(evs[|evs| - 1]);
      hide SourceKey;
    }
  }

  lemma {:induction false} GroupsAreSources(steps: seq<Step>, window: int)
    ensures OnlySources(LogAfter(steps, window).groups)
  {
    if steps != [] {
      var pre, last := steps[..|steps| - 1], steps[|steps| - 1];
      GroupsAreSources(pre, window);
      if last.Drain? {
        hide SourceKey;
        AddedAllSources(LogAfter(pre, window), last.evs, last.hidden);
      }
    }
  }

  // At a tick, a source has a condition exactly if its latest event since it was quiet is inside the
  // window: a warning for under-voltage, critical for a disk, described by its group.
  lemma ConditionIs(steps: seq<Step>, window: int, src: Source, now: int, describe: Group -> string)
    ensures var conds, evs := Conditions(LogAfter(steps, window).groups, now, window, describe), Episode(steps, window, src);
            if evs == [] || now - evs[|evs| - 1].at >= window then SourceKey(src) !in conds
            else
              && SourceKey(src) in conds
              && conds[SourceKey(src)] ==
                 Alerts.Cond(if src.Volts? then Alerts.Warn else Alerts.Crit,
                             describe(Group(KindOf(src), evs[0].device, evs[0].at, evs[|evs| - 1].at, |evs|)))
  {
    GroupIsEpisode(steps, window, src);
    hide LogAfter, Episode, SourceKey;
  }

  // ----- counting -----

  function TimesOf(evs: seq<Event>): Option<int> {
    if evs == [] then None else Some(evs[|evs| - 1].at)
  }

  // The session's tally and latest time of a source.
  ghost predicate TalliesTell(log: Log, src: Source, evs: seq<Event>) {
    match src
    case Volts => log.underVoltage == |evs| && (evs != [] ==> Some(log.underVoltageLast) == TimesOf(evs))
    case Disk(device) => Tally(log.ioErrors, device) == |evs| && Lookup(log.ioLast, device) == TimesOf(evs)
  }

  lemma {:induction false} AddedAllTallies(log: Log, evs: seq<Event>, hidden: set<string>, src: Source, before: seq<Event>)
    requires TalliesTell(log, src, before)
    ensures TalliesTell(AddedAll(log, evs, hidden), src, before + From(evs, src, hidden))
  {
    if evs == [] {
      assert before + [] == before;
    } else {
      var n := |evs| - 1;
      AddedAllTallies(log, evs[..n], hidden, src, before);
      hide AddedAll;
      var more := if IsFrom(evs[n], src, hidden) then [evs[n]] else [];
      assert before + (From(evs[..n], src, hidden) + more) == (before + From(evs[..n], src, hidden)) + more;
    }
  }

  // The tallies count every accepted event of the session, whatever has expired.
  lemma {:induction false} TalliesAreSession(steps: seq<Step>, window: int, src: Source)
    ensures TalliesTell(LogAfter(steps, window), src, Session(steps, src))
  {
    if steps != [] {
      var pre, last := steps[..|steps| - 1], steps[|steps| - 1];
      TalliesAreSession(pre, window, src);
      if last.Drain? {
        AddedAllTallies(LogAfter(pre, window), last.evs, last.hidden, src, Session(pre, src));
        hide AddedAll, From;
      } else {
        assert Session(pre, src) + [] == Session(pre, src);
      }
    }
  }

  lemma {:induction false} EpisodeInSession(steps: seq<Step>, window: int, src: Source)
    ensures |Episode(steps, window, src)| <= |Session(steps, src)|
  {
    if steps != [] {
      EpisodeInSession(steps[..|steps| - 1], window, src);
    }
  }

  // A disk's group counts the accepted errors since the disk was last quiet, and never more than the
  // session's tally.
  lemma GroupCountConserved(steps: seq<Step>, window: int, disk: string)
    ensures var log, key := LogAfter(steps, window), "kio:" + disk;
            var count := if key in log.groups then log.groups[key].count else 0;
            && count == |Episode(steps, window, Disk(disk))|
            && Tally(log.ioErrors, disk) == |Session(steps, Disk(disk))|
            && count <= Tally(log.ioErrors, disk)
  {
    GroupIsEpisode(steps, window, Disk(disk));
    TalliesAreSession(steps, window, Disk(disk));
    EpisodeInSession(steps, window, Disk(disk));
    hide LogAfter, Episode, Session;
  }
}
