/**
The alert engine of internal/ui/alerts.go: a flap-damped state machine per condition key.

`AlertEngine` is the source's object. Its `Update` is proved against the transition of a single
key (`NextState`, `NextEvents`); the lemmas below it are about every run of that transition.
*/
module Alerts {
  import opened Strings
  import opened Wrappers

  datatype Severity = Warn | Crit

  datatype Cond = Cond(sev: Severity, msg: string)

  // One event. The source's alertEntry has no key; the model carries it so that the events of
  // one condition can be told apart in the stream.
  datatype Entry = Entry(key: string, when: int, sev: Severity, msg: string, cleared: bool)

  // A condition with its damping counters.
  datatype Active = Active(cond: Cond, missing: nat, lower: nat)

  // What one call of Update is given.
  datatype Input = Input(conds: map<string, Cond>, now: int)

  predicate Above(a: Severity, b: Severity) {
    a.Crit? && b.Warn?
  }

  // ----- one key, one update -----

  predicate Damped(prev: Active, c: Cond, ticks: nat) {
    Above(prev.cond.sev, c.sev) && prev.lower + 1 < ticks
  }

  function NextState(prev: Option<Active>, c: Option<Cond>, ticks: nat): Option<Active> {
    match (prev, c)
    case (None, None) => None
    case (None, Some(c)) => Some(Active(c, 0, 0))
    case (Some(a), Some(c)) =>
      if Damped(a, c, ticks) then Some(a.(missing := 0, lower := a.lower + 1)) else Some(Active(c, 0, 0))
    case (Some(a), None) =>
      if a.missing + 1 >= ticks then None else Some(a.(missing := a.missing + 1))
  }

  function NextEvents(k: string, prev: Option<Active>, c: Option<Cond>, now: int, ticks: nat): seq<Entry> {
    match (prev, c)
    case (None, None) => []
    case (None, Some(c)) => [Entry(k, now, c.sev, c.msg, false)]
    case (Some(a), Some(c)) =>
      if a.cond.sev == c.sev || Damped(a, c, ticks) then [] else [Entry(k, now, c.sev, c.msg, false)]
    case (Some(a), None) =>
      if a.missing + 1 >= ticks then [Entry(k, now, a.cond.sev, a.cond.msg, true)] else []
  }

  // ----- one key, a whole run -----

  function StateAfter(ins: seq<Input>, k: string, ticks: nat): Option<Active> {
    if ins == [] then None
    else
      var last := |ins| - 1;
      NextState(StateAfter(ins[..last], k, ticks), Lookup(ins[last].conds, k), ticks)
  }

  function EventsOf(ins: seq<Input>, k: string, ticks: nat): seq<Entry> {
    if ins == [] then []
    else
      var last := |ins| - 1;
      EventsOf(ins[..last], k, ticks) +
      NextEvents(k, StateAfter(ins[..last], k, ticks), Lookup(ins[last].conds, k), ins[last].now, ticks)
  }

  // ----- the event stream and its bounded log -----

  // The events of one key, in order.
  function For(events: seq<Entry>, k: string): seq<Entry> {
    if events == [] then []
    else
      var last := events[|events| - 1];
      For(events[..|events| - 1], k) + (if last.key == k then [last] else [])
  }

  lemma {:induction false} ForAppend(a: seq<Entry>, b: seq<Entry>, k: string)
    ensures For(a + b, k) == For(a, k) + For(b, k)
  {
    if b == [] {
      assert a + b == a;
    } else {
      var n := |b| - 1;
      assert (a + b)[..|a + b| - 1] == a + b[..n];
      ForAppend(a, b[..n], k);
    }
  }

  // Key k has made its transition on c between `before` and `after`, or has not been touched.
  ghost predicate Scanned(k: string, visited: set<string>, c: Option<Cond>, before: map<string, Active>,
                          after: map<string, Active>, events: seq<Entry>, now: int, ticks: nat) {
    if k in visited then
      && Lookup(after, k) == NextState(Lookup(before, k), c, ticks)
      && For(events, k) == NextEvents(k, Lookup(before, k), c, now, ticks)
    else
      Lookup(after, k) == Lookup(before, k) && For(events, k) == []
  }

  // A scan of `conds` that has got through the keys in `visited`.
  ghost predicate ScanOf(visited: set<string>, conds: map<string, Cond>, before: map<string, Active>,
                         after: map<string, Active>, events: seq<Entry>, now: int, ticks: nat) {
    forall k :: Scanned(k, visited, Lookup(conds, k), before, after, events, now, ticks)
  }

  // One iteration of a scan: k makes its transition, every other key is left alone.
  lemma ScanStep(k: string, visited: set<string>, conds: map<string, Cond>, before: map<string, Active>,
                 active0: map<string, Active>, active1: map<string, Active>, events0: seq<Entry>, events1: seq<Entry>,
                 now: int, ticks: nat)
    requires ScanOf(visited, conds, before, active0, events0, now, ticks) && k !in visited
    requires events1 == events0 + NextEvents(k, Lookup(before, k), Lookup(conds, k), now, ticks)
    requires Lookup(active1, k) == NextState(Lookup(before, k), Lookup(conds, k), ticks)
    requires active1 - {k} == active0 - {k}
    ensures ScanOf(visited + {k}, conds, before, active1, events1, now, ticks)
  {
    var news := NextEvents(k, Lookup(before, k), Lookup(conds, k), now, ticks);
    forall j ensures Scanned(j, visited + {k}, Lookup(conds, j), before, active1, events1, now, ticks) {
      assert Scanned(j, visited, Lookup(conds, j), before, active0, events0, now, ticks);
      ForAppend(events0, news, j);
      ForOneKey(news, k, j);
      if j != k {
        assert Lookup(active1 - {k}, j) == Lookup(active0 - {k}, j);
      }
    }
  }

  lemma ForOneKey(news: seq<Entry>, k: string, j: string)
    requires |news| <= 1 && (news != [] ==> news[0].key == k)
    ensures For(news, j) == if j == k then news else []
  {
    if news != [] {
      assert news[..0] == [] && news == [news[0]];
    }
  }

  // The state and the events of every key are those of its run over `ins`.
  ghost predicate RunOf(ins: seq<Input>, active: map<string, Active>, emitted: seq<Entry>, ticks: nat) {
    forall k :: Lookup(active, k) == StateAfter(ins, k, ticks) && For(emitted, k) == EventsOf(ins, k, ticks)
  }

  // The two scans together extend the run of every key by one update.
  lemma ScansExtendRun(conds: map<string, Cond>, now: int, before: map<string, Active>, between: map<string, Active>,
                       after: map<string, Active>, raised: seq<Entry>, cleared: seq<Entry>, ins: seq<Input>,
                       emitted: seq<Entry>, ticks: nat)
    requires RunOf(ins, before, emitted, ticks)
    requires ScanOf(conds.Keys, conds, before, between, raised, now, ticks)
    requires ScanOf(between.Keys - conds.Keys, map[], between, after, cleared, now, ticks)
    ensures RunOf(ins + [Input(conds, now)], after, emitted + (raised + cleared), ticks)
  {
    forall k
      ensures Lookup(after, k) == StateAfter(ins + [Input(conds, now)], k, ticks)
      ensures For(emitted + (raised + cleared), k) == EventsOf(ins + [Input(conds, now)], k, ticks)
    {
      assert Scanned(k, conds.Keys, Lookup(conds, k), before, between, raised, now, ticks);
      var none: map<string, Cond> := map[];
      assert Scanned(k, between.Keys - conds.Keys, Lookup(none, k), between, after, cleared, now, ticks);
      ForAppend(raised, cleared, k);
      ForAppend(emitted, raised + cleared, k);
      assert (ins + [Input(conds, now)])[..|ins|] == ins;
    }
  }

  class AlertEngine {
    var active: map<string, Active>
    var log: seq<Entry>
    const cap: nat
    const clearTicks: nat
    var muted: bool

    ghost var inputs: seq<Input>      // every update so far
    ghost var emitted: seq<Entry>     // every event so far
    ghost var recorded: seq<Entry>    // the events since the log was last cleared

    // What holds of an engine after any run.
    ghost predicate Valid()
      reads this
    {
      && cap >= 16 && clearTicks >= 1
      && RunOf(inputs, active, emitted, clearTicks)
      && log == LastN(recorded, cap)
    }

    constructor (capN: int, ticks: int)
      ensures Valid()
      ensures cap == (if capN < 16 then 16 else capN) && clearTicks == (if ticks < 1 then 1 else ticks)
      ensures active == map[] && inputs == [] && emitted == [] && recorded == [] && !muted
    {
      cap := if capN < 16 then 16 else capN;
      clearTicks := if ticks < 1 then 1 else ticks;
      active, log, muted := map[], [], false;
      inputs, emitted, recorded := [], [], [];
    }

    method Push(en: Entry)
      requires log == LastN(recorded, cap)
      modifies `log, `recorded
      ensures recorded == old(recorded) + [en]
      ensures log == LastN(recorded, cap)
    {
      log := log + [en];
      if |log| > cap {
        log := log[|log| - cap..];
      }
      recorded := recorded + [en];
    }

    method Update(conds: map<string, Cond>, now: int) returns (events: seq<Entry>)
      requires Valid()
      modifies `active, `log, `inputs, `emitted, `recorded
      ensures Valid()
      ensures inputs == old(inputs) + [Input(conds, now)]
      ensures emitted == old(emitted) + events
      ensures recorded == old(recorded) + events
    {
      ghost var before := active;
      var raised := ScanPresent(conds, now);
      ghost var between := active;
      var cleared := ScanAbsent(conds, now);
      ghost var after := active;
      events := raised + cleared;
      for i := 0 to |events|
        invariant active == after && inputs == old(inputs) && emitted == old(emitted)
        invariant recorded == old(recorded) + events[..i]
        invariant log == LastN(recorded, cap)
      {
        Push(events[i]);
      }
      ScansExtendRun(conds, now, before, between, after, raised, cleared, inputs, emitted, clearTicks);
      inputs := inputs + [Input(conds, now)];
      emitted := emitted + events;
      assert events[..|events|] == events;
    }

    // The first loop of update: the conditions that are true now, in any order.
    method ScanPresent(conds: map<string, Cond>, now: int) returns (events: seq<Entry>)
      modifies `active
      ensures ScanOf(conds.Keys, conds, old(active), active, events, now, clearTicks)
    {
      events := [];
      ghost var before := active;
      var todo := conds.Keys;
      ghost var visited: set<string> := {};
      while todo != {}
        invariant todo !! visited && todo + visited == conds.Keys
        invariant ScanOf(visited, conds, before, active, events, now, clearTicks)
        decreases todo
      {
        var k :| k in todo;
        var c := conds[k];
        ghost var active0, events0 := active, events;
        assert Scanned(k, visited, Lookup(conds, k), before, active, events, now, clearTicks);
        var prev := Lookup(active, k);
        if prev.Some? && Above(prev.value.cond.sev, c.sev) && prev.value.lower + 1 < clearTicks {
          active := active[k := prev.value.(lower := prev.value.lower + 1, missing := 0)];
        } else {
          if prev.None? || Above(c.sev, prev.value.cond.sev) || Above(prev.value.cond.sev, c.sev) {
            events := events + [Entry(k, now, c.sev, c.msg, false)];
          }
          active := active[k := Active(c, 0, 0)];
        }
        assert active - {k} == active0 - {k};
        ScanStep(k, visited, conds, before, active0, active, events0, events, now, clearTicks);
        todo, visited := todo - {k}, visited + {k};
      }
      assert visited == conds.Keys;
    }

    // The second loop of update: the active conditions that are absent now, in any order.
    method ScanAbsent(conds: map<string, Cond>, now: int) returns (events: seq<Entry>)
      modifies `active
      ensures ScanOf(old(active).Keys - conds.Keys, map[], old(active), active, events, now, clearTicks)
    {
      events := [];
      ghost var before := active;
      var todo := active.Keys;
      ghost var visited: set<string> := {};
      ghost var none: map<string, Cond> := map[];
      while todo != {}
        invariant todo !! visited && todo - conds.Keys + visited == before.Keys - conds.Keys
        invariant ScanOf(visited, map[], before, active, events, now, clearTicks)
        decreases todo
      {
        var k :| k in todo;
        if k !in conds {
          ghost var active0, events0 := active, events;
          assert Scanned(k, visited, Lookup(none, k), before, active, events, now, clearTicks);
          assert Lookup(active, k) == Lookup(before, k) && k in before;
          var prev := active[k];
          prev := prev.(missing := prev.missing + 1);
          if prev.missing >= clearTicks {
            active := active - {k};
            events := events + [Entry(k, now, prev.cond.sev, prev.cond.msg, true)];
          } else {
            active := active[k := prev];
          }
          assert active - {k} == active0 - {k};
          ScanStep(k, visited, map[], before, active0, active, events0, events, now, clearTicks);
          visited := visited + {k};
        }
        todo := todo - {k};
      }
      assert visited == before.Keys - conds.Keys;
    }

    method ClearLog()
      requires Valid()
      modifies `log, `recorded
      ensures Valid() && log == [] && recorded == []
    {
      log := [];
      recorded := [];
    }

    // The banner: the most severe active condition, ties broken by text.
    method Summary() returns (top: Cond, count: nat, any: bool)
      ensures any <==> active != map[]
      ensures count == |active|
      ensures any ==> IsTop(top, Conditions(active))
    {
      if |active| == 0 {
        return Cond(Warn, ""), 0, false;
      }
      var todo := active.Keys;
      var k :| k in todo;
      top := active[k].cond;
      todo := todo - {k};
      OutranksIrreflexive(top);
      while todo != {}
        invariant todo <= active.Keys
        invariant exists j :: j in active && j !in todo && active[j].cond == top
        invariant forall j :: j in active && j !in todo ==> !Outranks(active[j].cond, top)
        decreases todo
      {
        k :| k in todo;
        var c := active[k].cond;
        if Above(c.sev, top.sev) || (c.sev == top.sev && StringLess(c.msg, top.msg)) {
          forall j | j in active && j !in todo ensures !Outranks(active[j].cond, c) {
            OutranksTransitive(active[j].cond, c, top);
          }
          top := c;
        }
        OutranksIrreflexive(top);
        todo := todo - {k};
      }
      return top, |active|, true;
    }
  }

  // ----- announcements are well bracketed -----

  // What a listener who saw these events believes is standing, and how severe.
  function Standing(events: seq<Entry>): Option<Severity> {
    if events == [] then None
    else
      var e := events[|events| - 1];
      if e.cleared then None else Some(e.sev)
  }

  // Announcements of changing severity, then a CLEAR of the severity last announced, repeated.
  ghost predicate WellBracketed(events: seq<Entry>) {
    forall i :: 0 <= i < |events| ==>
      if events[i].cleared then Standing(events[..i]) == Some(events[i].sev)
      else Standing(events[..i]) != Some(events[i].sev)
  }

  lemma {:induction false} AnnouncedStateInvariant(ins: seq<Input>, k: string, ticks: nat)
    requires ticks >= 1
    ensures WellBracketed(EventsOf(ins, k, ticks))
    ensures Standing(EventsOf(ins, k, ticks)) == SeverityOf(StateAfter(ins, k, ticks))
  {
    if ins != [] {
      var pre := ins[..|ins| - 1];
      AnnouncedStateInvariant(pre, k, ticks);
      var news := NewestEvents(ins, k, ticks);
      if news == [] {
        assert EventsOf(pre, k, ticks) + news == EventsOf(pre, k, ticks);
      } else {
        BracketedAppend(EventsOf(pre, k, ticks), news[0]);
        assert news == [news[0]];
      }
    }
  }

  function SeverityOf(state: Option<Active>): Option<Severity> {
    match state
    case None => None
    case Some(a) => Some(a.cond.sev)
  }

  lemma BracketedAppend(events: seq<Entry>, e: Entry)
    requires WellBracketed(events)
    requires e.cleared <==> Standing(events) == Some(e.sev)
    ensures WellBracketed(events + [e])
    ensures Standing(events + [e]) == if e.cleared then None else Some(e.sev)
  {
    var all := events + [e];
    forall i | 0 <= i < |all|
      ensures if all[i].cleared then Standing(all[..i]) == Some(all[i].sev) else Standing(all[..i]) != Some(all[i].sev)
    {
      assert all[..i] == events[..i];
    }
  }

  // ----- when a condition is active, in terms of the inputs alone -----

  // How many updates in a row, up to now, the key has been absent.
  function TrailingAbsences(ins: seq<Input>, k: string): (n: nat)
    ensures n <= |ins|
  {
    if ins == [] || k in ins[|ins| - 1].conds then 0 else 1 + TrailingAbsences(ins[..|ins| - 1], k)
  }

  // A key is active exactly when it has been seen, and seen within the last `ticks` updates.
  lemma {:induction false} ActiveIffSeenRecently(ins: seq<Input>, k: string, ticks: nat)
    requires ticks >= 1
    ensures StateAfter(ins, k, ticks).Some? <==>
            TrailingAbsences(ins, k) < ticks && TrailingAbsences(ins, k) < |ins|
    ensures StateAfter(ins, k, ticks).Some? ==> StateAfter(ins, k, ticks).value.missing == TrailingAbsences(ins, k)
  {
    if ins != [] {
      ActiveIffSeenRecently(ins[..|ins| - 1], k, ticks);
    }
  }

  // The newest update clears the key exactly when it completes `ticks` absences in a row after a
  // presence: not earlier, and never twice.
  lemma ClearIffAbsencesComplete(ins: seq<Input>, k: string, ticks: nat)
    requires ticks >= 1 && ins != []
    ensures (exists e :: e in NewestEvents(ins, k, ticks) && e.cleared) <==>
            TrailingAbsences(ins, k) == ticks && ticks < |ins|
  {
    var pre := ins[..|ins| - 1];
    ActiveIffSeenRecently(pre, k, ticks);
    var news := NewestEvents(ins, k, ticks);
    if TrailingAbsences(ins, k) == ticks && ticks < |ins| {
      assert news[0].cleared;
    }
  }

  function NewestEvents(ins: seq<Input>, k: string, ticks: nat): seq<Entry>
    requires ins != []
  {
    var last := |ins| - 1;
    NextEvents(k, StateAfter(ins[..last], k, ticks), Lookup(ins[last].conds, k), ins[last].now, ticks)
  }

  // ----- what is announced, in terms of the inputs alone -----

  predicate Reports(ins: seq<Input>, i: nat, k: string, sev: Severity) {
    i < |ins| && k in ins[i].conds && ins[i].conds[k].sev == sev
  }

  // How many updates after the i-th reported the key as a warning.
  function WarnsAfter(ins: seq<Input>, i: nat, k: string): nat {
    if |ins| <= i + 1 then 0
    else WarnsAfter(ins[..|ins| - 1], i, k) + (if Reports(ins, |ins| - 1, k, Warn) then 1 else 0)
  }

  // Since the i-th update the key has been absent `ticks` times in a row.
  ghost predicate AwaySince(ins: seq<Input>, i: nat, k: string, ticks: nat) {
    exists m :: i < m <= |ins| && TrailingAbsences(ins[..m], k) >= ticks
  }

  // The i-th update reported the key as critical, and nothing since has released it.
  ghost predicate CritHolds(ins: seq<Input>, i: nat, k: string, ticks: nat) {
    Reports(ins, i, k, Crit) && WarnsAfter(ins, i, k) < ticks && !AwaySince(ins, i, k, ticks)
  }

  lemma AwayStep(ins: seq<Input>, i: nat, k: string, ticks: nat)
    requires ins != [] && i < |ins| - 1
    ensures AwaySince(ins, i, k, ticks) <==>
            AwaySince(ins[..|ins| - 1], i, k, ticks) || TrailingAbsences(ins, k) >= ticks
  {
    var pre := ins[..|ins| - 1];
    assert ins[..|ins|] == ins;
    assert forall m :: 0 <= m <= |pre| ==> pre[..m] == ins[..m];
    if AwaySince(pre, i, k, ticks) {
      var m :| i < m <= |pre| && TrailingAbsences(pre[..m], k) >= ticks;
      assert TrailingAbsences(ins[..m], k) >= ticks;
    }
  }

  // The latest critical report, if there is one.
  function LastCrit(ins: seq<Input>, k: string): (i: int)
    ensures -1 <= i < |ins| && (i >= 0 ==> Reports(ins, i, k, Crit))
    ensures forall j: nat :: i < j < |ins| ==> !Reports(ins, j, k, Crit)
  {
    if ins == [] then -1
    else if Reports(ins, |ins| - 1, k, Crit) then |ins| - 1
    else
      var pre := ins[..|ins| - 1];
      assert forall j: nat :: j < |pre| ==> (Reports(pre, j, k, Crit) <==> Reports(ins, j, k, Crit));
      LastCrit(pre, k)
  }

  lemma {:induction false} CritState(ins: seq<Input>, k: string, ticks: nat)
    requires ticks >= 1
    ensures var i, state := LastCrit(ins, k), StateAfter(ins, k, ticks);
            && (SeverityOf(state) == Some(Crit) <==> i >= 0 && CritHolds(ins, i, k, ticks))
            && (SeverityOf(state) == Some(Crit) ==> state.value.lower == WarnsAfter(ins, i, k))
  {
    if ins != [] {
      var n := |ins| - 1;
      var i := LastCrit(ins, k);
      CritState(ins[..n], k, ticks);
      ActiveIffSeenRecently(ins[..n], k, ticks);
      if i == n {
        assert ins[..|ins|] == ins;
      } else if i >= 0 {
        AwayStep(ins, i, k, ticks);
      }
      hide AwaySince;
    }
  }

  lemma {:induction false} WarnsAfterLater(ins: seq<Input>, i: nat, j: nat, k: string)
    requires i <= j
    ensures WarnsAfter(ins, j, k) <= WarnsAfter(ins, i, k)
  {
    if |ins| > j + 1 {
      WarnsAfterLater(ins[..|ins| - 1], i, j, k);
    }
  }

  lemma LatestHolds(ins: seq<Input>, i: nat, k: string, ticks: nat)
    requires CritHolds(ins, i, k, ticks)
    ensures LastCrit(ins, k) >= i && CritHolds(ins, LastCrit(ins, k), k, ticks)
  {
    var j := LastCrit(ins, k);
    WarnsAfterLater(ins, i, j, k);
  }

  // What stands announced: critical exactly while some critical report has been followed neither by
  // clearTicks warnings nor by clearTicks absences in a row; nothing exactly while the key has not
  // been seen for clearTicks updates, or never; and otherwise a warning.
  lemma StandingIff(ins: seq<Input>, k: string, ticks: nat)
    requires ticks >= 1
    ensures Standing(EventsOf(ins, k, ticks)) == Some(Crit) <==> exists i: nat :: CritHolds(ins, i, k, ticks)
    ensures Standing(EventsOf(ins, k, ticks)) == None <==>
            TrailingAbsences(ins, k) >= ticks || TrailingAbsences(ins, k) == |ins|
  {
    AnnouncedStateInvariant(ins, k, ticks);
    ActiveIffSeenRecently(ins, k, ticks);
    CritState(ins, k, ticks);
    hide CritHolds, StateAfter, EventsOf, Standing, TrailingAbsences;
    if i: nat :| CritHolds(ins, i, k, ticks) {
      LatestHolds(ins, i, k, ticks);
    }
  }

  // So an update that reports a key as critical leaves it announced as critical.
  lemma CritIsAnnounced(ins: seq<Input>, k: string, ticks: nat)
    requires ticks >= 1 && ins != [] && Reports(ins, |ins| - 1, k, Crit)
    ensures Standing(EventsOf(ins, k, ticks)) == Some(Crit)
  {
    assert CritHolds(ins, |ins| - 1, k, ticks);
    hide CritHolds;
    StandingIff(ins, k, ticks);
  }

  // And clearTicks warnings with no critical report among or after them leave it a warning, unless it
  // has been away long enough to be cleared.
  lemma WarnIsAnnounced(ins: seq<Input>, k: string, ticks: nat)
    requires ticks >= 1 && TrailingAbsences(ins, k) < ticks && TrailingAbsences(ins, k) < |ins|
    requires LastCrit(ins, k) >= 0 ==> WarnsAfter(ins, LastCrit(ins, k), k) >= ticks
    ensures Standing(EventsOf(ins, k, ticks)) == Some(Warn)
  {
    hide StateAfter, EventsOf, TrailingAbsences, AwaySince;
    CritState(ins, k, ticks);
    AnnouncedStateInvariant(ins, k, ticks);
    StandingIff(ins, k, ticks);
    NothingElseStands(Standing(EventsOf(ins, k, ticks)));
  }

  lemma NothingElseStands(standing: Option<Severity>)
    ensures standing == None || standing == Some(Warn) || standing == Some(Crit)
  {
    if standing.Some? {
      match standing.value {
        case Warn =>
        case Crit =>
      }
    }
  }

  // The latest report of the key at this severity.
  function LatestAt(ins: seq<Input>, k: string, sev: Severity): Option<Cond> {
    if ins == [] then None
    else if Reports(ins, |ins| - 1, k, sev) then Some(ins[|ins| - 1].conds[k])
    else LatestAt(ins[..|ins| - 1], k, sev)
  }

  // The active condition has the text of the latest report at the severity that stands.
  lemma {:induction false} ActiveText(ins: seq<Input>, k: string, ticks: nat)
    requires ticks >= 1
    ensures var state := StateAfter(ins, k, ticks);
            state.Some? ==> LatestAt(ins, k, state.value.cond.sev) == Some(state.value.cond)
  {
    if ins != [] {
      ActiveText(ins[..|ins| - 1], k, ticks);
    }
  }

  // An update adds an event exactly when it changes what stands, and then one: an announcement of what
  // it reports, or a CLEAR with the text that stood. Both carry its time.
  lemma NewestEventIs(ins: seq<Input>, k: string, ticks: nat)
    requires ticks >= 1 && ins != []
    ensures var pre, last, all := ins[..|ins| - 1], ins[|ins| - 1], EventsOf(ins, k, ticks);
            var before, news := EventsOf(pre, k, ticks), NewestEvents(ins, k, ticks);
            && all == before + news && |news| <= 1
            && (news == [] <==> Standing(all) == Standing(before))
            && (news != [] ==>
                  && news[0].key == k && news[0].when == last.now
                  && var said := Some(Cond(news[0].sev, news[0].msg));
                     if news[0].cleared then k !in last.conds && said == LatestAt(pre, k, news[0].sev)
                     else k in last.conds && said == Some(last.conds[k]))
  {
    var pre := ins[..|ins| - 1];
    AnnouncedStateInvariant(pre, k, ticks);
    AnnouncedStateInvariant(ins, k, ticks);
    ActiveText(pre, k, ticks);
    hide LatestAt, WellBracketed;
    assert EventsOf(ins, k, ticks) == EventsOf(pre, k, ticks) + NewestEvents(ins, k, ticks);
    if NewestEvents(ins, k, ticks) == [] {
      assert EventsOf(ins, k, ticks) == EventsOf(pre, k, ticks);
    }
  }

  // ----- the flapping bound -----

  function Clears(events: seq<Entry>): nat {
    if events == [] then 0
    else Clears(events[..|events| - 1]) + (if events[|events| - 1].cleared then 1 else 0)
  }

  // Announcements of a severity below the one standing.
  function Drops(events: seq<Entry>): nat {
    if events == [] then 0
    else
      var pre, e := events[..|events| - 1], events[|events| - 1];
      Drops(pre) + (if IsDrop([e], Standing(pre)) then 1 else 0)
  }

  predicate IsDrop(news: seq<Entry>, standing: Option<Severity>) {
    news != [] && !news[0].cleared && news[0].sev.Warn? && standing == Some(Crit)
  }

  function Absences(ins: seq<Input>, k: string): nat {
    if ins == [] then 0
    else Absences(ins[..|ins| - 1], k) + (if k in ins[|ins| - 1].conds then 0 else 1)
  }

  function WarnPresences(ins: seq<Input>, k: string): nat {
    if ins == [] then 0
    else
      var c := Lookup(ins[|ins| - 1].conds, k);
      WarnPresences(ins[..|ins| - 1], k) + (if c.Some? && c.value.sev.Warn? then 1 else 0)
  }

  // The absences and the lower-severity presences counted towards the next release.
  function Owed(state: Option<Active>): (nat, nat) {
    match state
    case None => (0, 0)
    case Some(a) => (a.missing, a.lower)
  }

  // n releases at `ticks` updates each.
  function Price(ticks: nat, n: nat): nat {
    if n == 0 then 0 else Price(ticks, n - 1) + ticks
  }

  lemma {:induction false} PriceIsProduct(ticks: nat, n: nat)
    ensures Price(ticks, n) == ticks * n
  {
    if n > 0 {
      PriceIsProduct(ticks, n - 1);
      assert ticks * n == ticks * (n - 1) + ticks;
    }
  }

  // Every CLEAR has used up `ticks` absences of its own, every drop `ticks` lower-severity
  // presences of its own; the damping counters hold what is paid towards the next one.
  ghost predicate Paid(events: seq<Entry>, state: Option<Active>, ticks: nat, absences: nat, warns: nat) {
    && Price(ticks, Clears(events)) + Owed(state).0 <= absences
    && Price(ticks, Drops(events)) + Owed(state).1 <= warns
  }

  lemma {:induction false} ReleasesArePaidFor(ins: seq<Input>, k: string, ticks: nat)
    requires ticks >= 1
    ensures Paid(EventsOf(ins, k, ticks), StateAfter(ins, k, ticks), ticks, Absences(ins, k), WarnPresences(ins, k))
  {
    if ins != [] {
      var pre, last := ins[..|ins| - 1], ins[|ins| - 1];
      ReleasesArePaidFor(pre, k, ticks);
      AnnouncedStateInvariant(pre, k, ticks);
      PaidStep(k, EventsOf(pre, k, ticks), StateAfter(pre, k, ticks), Lookup(last.conds, k), last.now, ticks,
               Absences(pre, k), WarnPresences(pre, k));
    }
  }

  lemma PaidStep(k: string, events: seq<Entry>, prev: Option<Active>, c: Option<Cond>, now: int, ticks: nat,
                 absences: nat, warns: nat)
    requires ticks >= 1 && Standing(events) == SeverityOf(prev)
    requires Paid(events, prev, ticks, absences, warns)
    ensures Paid(events + NextEvents(k, prev, c, now, ticks), NextState(prev, c, ticks), ticks,
                 absences + (if c.None? then 1 else 0), warns + (if c.Some? && c.value.sev.Warn? then 1 else 0))
  {
    CountNewest(events, NextEvents(k, prev, c, now, ticks));
  }

  lemma {:induction false} UpdatesAreAbsencesOrPresences(ins: seq<Input>, k: string)
    ensures Absences(ins, k) + WarnPresences(ins, k) <= |ins|
  {
    if ins != [] {
      UpdatesAreAbsencesOrPresences(ins[..|ins| - 1], k);
    }
  }

  lemma CountNewest(events: seq<Entry>, news: seq<Entry>)
    requires |news| <= 1
    ensures Clears(events + news) == Clears(events) + (if news != [] && news[0].cleared then 1 else 0)
    ensures Drops(events + news) == Drops(events) + (if IsDrop(news, Standing(events)) then 1 else 0)
  {
    if news == [] {
      assert events + news == events;
    } else {
      assert news == [news[0]];
      assert (events + news)[..|events|] == events;
    }
  }

  // Between two releases a key can only be raised and escalated.
  lemma {:induction false} EventsPerRelease(events: seq<Entry>)
    requires WellBracketed(events)
    ensures |events| <= 3 * (Clears(events) + Drops(events)) +
            (match Standing(events) { case None => 0 case Some(s) => if s.Crit? then 2 else 1 })
  {
    if events != [] {
      var pre := events[..|events| - 1];
      forall i | 0 <= i < |pre| ensures pre[..i] == events[..i] {}
      EventsPerRelease(pre);
    }
  }

  // Over any N updates one key emits at most 3 * floor(N / clearTicks) + 2 events.
  lemma FlappingBound(ins: seq<Input>, k: string, ticks: nat)
    requires ticks >= 1
    ensures |EventsOf(ins, k, ticks)| <= 3 * (|ins| / ticks) + 2
  {
    var events := EventsOf(ins, k, ticks);
    ReleasesArePaidFor(ins, k, ticks);
    AnnouncedStateInvariant(ins, k, ticks);
    EventsPerRelease(events);
    UpdatesAreAbsencesOrPresences(ins, k);
    PriceIsProduct(ticks, Clears(events));
    PriceIsProduct(ticks, Drops(events));
    QuotientBound(Clears(events), Drops(events), |ins|, ticks);
  }

  lemma QuotientBound(p: nat, q: nat, n: nat, d: nat)
    requires d >= 1 && d * p + d * q <= n
    ensures p + q <= n / d
  {
    assert d * (p + q) <= n;
    if p + q > n / d {
      MulMonotone(d, n / d + 1, p + q);
    }
  }

  lemma MulMonotone(d: nat, a: int, b: int)
    requires a <= b
    ensures d * a <= d * b
  {
    assert d * b - d * a == d * (b - a);
  }

  // ----- the banner does not depend on map order -----

  // The order of the Alerts tab: critical first, then by text.
  predicate Outranks(a: Cond, b: Cond) {
    Above(a.sev, b.sev) || (a.sev == b.sev && StringLess(a.msg, b.msg))
  }

  function Conditions(active: map<string, Active>): set<Cond> {
    set k | k in active :: active[k].cond
  }

  ghost predicate IsTop(top: Cond, conds: set<Cond>) {
    top in conds && forall c :: c in conds ==> !Outranks(c, top)
  }

  lemma OutranksIrreflexive(c: Cond)
    ensures !Outranks(c, c)
  {
    StringLessTotal(c.msg, c.msg);
  }

  lemma OutranksTransitive(a: Cond, b: Cond, c: Cond)
    ensures Outranks(a, b) && Outranks(b, c) ==> Outranks(a, c)
  {
    if StringLess(a.msg, b.msg) && StringLess(b.msg, c.msg) {
      StringLessTransitive(a.msg, b.msg, c.msg);
    }
  }

  // A critical condition comes before any warning, and of two equally severe ones the smaller text.
  lemma TopMeans(top: Cond, conds: set<Cond>, c: Cond)
    requires IsTop(top, conds) && c in conds
    ensures c.sev.Crit? ==> top.sev.Crit?
    ensures c.sev == top.sev && c.msg != top.msg ==> StringLess(top.msg, c.msg)
  {
    StringLessTotal(c.msg, top.msg);
  }

  // The banner is the same whatever order the map is walked in, and it is the first line of any
  // listing of the active conditions that is sorted the way the Alerts tab sorts.
  lemma BannerHeadsTheList(top: Cond, conds: set<Cond>, listing: seq<Cond>)
    requires IsTop(top, conds)
    requires forall c :: c in conds <==> c in listing
    requires forall i, j :: 0 <= i < j < |listing| ==> !Outranks(listing[j], listing[i])
    ensures listing != [] && listing[0] == top
  {
    var i :| 0 <= i < |listing| && listing[i] == top;
    StringLessTotal(listing[0].msg, top.msg);
    assert listing[0] in conds;
  }
}
