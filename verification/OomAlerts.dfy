/**
OOM kills through to their alerts: the tracker of internal/ui/oom.go composed with the alert engine of
internal/ui/alerts.go. Each kill has a key of its own so that a second kill raises while the first is
still shown; here is exactly when it does.
*/
module OomAlerts {
  import Alerts
  import Oom
  import opened Wrappers

  // What the tracker is told, and the ticks; every other source of conditions is in `others`.
  datatype Step =
    | Told(input: Oom.Input)
    | Tick(now: int, others: map<string, Alerts.Cond>, clock: int -> string)

  function InputsOf(steps: seq<Step>): seq<Oom.Input> {
    if steps == [] then []
    else InputsOf(steps[..|steps| - 1]) + (if steps[|steps| - 1].Told? then [steps[|steps| - 1].input] else [])
  }

  function TrackerAfter(steps: seq<Step>): Oom.Tracker {
    Oom.After(InputsOf(steps))
  }

  ghost function TickConds(t: Oom.Tracker, tick: Step, window: int): map<string, Alerts.Cond>
    requires tick.Tick?
  {
    tick.others + Oom.CondsOf(t.victims, t.events, t.events, tick.now, window, tick.clock)
  }

  // What the alert engine is given over the run.
  ghost function AlertInputs(steps: seq<Step>, window: int): seq<Alerts.Input> {
    if steps == [] then []
    else
      var pre, last := steps[..|steps| - 1], steps[|steps| - 1];
      AlertInputs(pre, window) +
      if last.Told? then [] else [Alerts.Input(TickConds(TrackerAfter(pre), last, window), last.now)]
  }

  ghost predicate TicksInOrder(steps: seq<Step>) {
    forall i, j :: 0 <= i < j < |steps| && steps[i].Tick? && steps[j].Tick? ==> steps[i].now <= steps[j].now
  }

  // Nothing else reports under this key.
  ghost predicate KeyIsOurs(steps: seq<Step>, k: string) {
    forall i :: 0 <= i < |steps| && steps[i].Tick? ==> k !in steps[i].others
  }

  ghost predicate Shown(ins: seq<Alerts.Input>, i: nat, k: string) {
    i < |ins| && k in ins[i].conds
  }

  ghost predicate OnlyCrit(ins: seq<Alerts.Input>, k: string) {
    forall i :: 0 <= i < |ins| && k in ins[i].conds ==> ins[i].conds[k].sev.Crit?
  }

  lemma TickShows(t: Oom.Tracker, tick: Step, window: int, k: string)
    requires tick.Tick? && k !in tick.others
    ensures var conds := TickConds(t, tick, window);
            (k in conds <==> Oom.InView(t.events, k, tick.now, window)) && (k in conds ==> conds[k].sev.Crit?)
  {
    Oom.CondsAreInView(t.victims, t.events, t.events, tick.now, window, tick.clock, k);
    hide Oom.CondsOf, Oom.InView;
  }

  // A kill's condition is critical at every tick.
  lemma {:induction false} KillsAreCrit(steps: seq<Step>, window: int, k: string)
    requires KeyIsOurs(steps, k)
    ensures OnlyCrit(AlertInputs(steps, window), k)
  {
    hide TickConds;
    if steps != [] {
      var pre, last := steps[..|steps| - 1], steps[|steps| - 1];
      KillsAreCrit(pre, window, k);
      if last.Tick? {
        TickShows(TrackerAfter(pre), last, window, k);
      }
    }
  }

  // ----- when a key is announced -----

  // The key was shown at none of the last n updates.
  ghost predicate UnseenFor(ins: seq<Alerts.Input>, k: string, n: nat) {
    forall i :: 0 <= i < |ins| && i >= |ins| - n ==> k !in ins[i].conds
  }

  lemma {:induction false} UnseenIsAbsence(ins: seq<Alerts.Input>, k: string, n: nat)
    ensures UnseenFor(ins, k, n) <==> Alerts.TrailingAbsences(ins, k) >= n || Alerts.TrailingAbsences(ins, k) == |ins|
  {
    if ins != [] && n > 0 {
      var pre := ins[..|ins| - 1];
      UnseenIsAbsence(pre, k, n - 1);
      assert UnseenFor(ins, k, n) <==> k !in ins[|ins| - 1].conds && UnseenFor(pre, k, n - 1);
    }
  }

  lemma {:induction false} OnlyCritState(ins: seq<Alerts.Input>, k: string, ticks: nat)
    requires ticks >= 1 && OnlyCrit(ins, k)
    ensures Alerts.StateAfter(ins, k, ticks).Some? ==> Alerts.StateAfter(ins, k, ticks).value.cond.sev.Crit?
  {
    if ins != [] {
      OnlyCritState(ins[..|ins| - 1], k, ticks);
    }
  }

  ghost predicate Announces(ins: seq<Alerts.Input>, k: string, ticks: nat)
    requires ins != []
  {
    exists e :: e in Alerts.NewestEvents(ins, k, ticks) && !e.cleared
  }

  // A key that is only ever critical is announced by exactly the updates that show it after at least
  // clearTicks updates without it, or after none with it.
  lemma AnnouncedIff(ins: seq<Alerts.Input>, k: string, ticks: nat)
    requires ticks >= 1 && ins != [] && OnlyCrit(ins, k)
    ensures Announces(ins, k, ticks) <==>
            k in ins[|ins| - 1].conds && UnseenFor(ins[..|ins| - 1], k, ticks)
  {
    var pre := ins[..|ins| - 1];
    OnlyCritState(pre, k, ticks);
    Alerts.ActiveIffSeenRecently(pre, k, ticks);
    UnseenIsAbsence(pre, k, ticks);
    hide Alerts.StateAfter, UnseenFor, Alerts.TrailingAbsences;
    var news := Alerts.NewestEvents(ins, k, ticks);
    if k in ins[|ins| - 1].conds && Alerts.StateAfter(pre, k, ticks).None? {
      assert !news[0].cleared;
    }
  }

  // A tick that shows a kill announces it exactly when no kill with its key was shown at any of the
  // last clearTicks ticks. So a kill is silent exactly when one with the same key was.
  lemma KillIsAnnouncedIff(steps: seq<Step>, window: int, k: string, ticks: nat)
    requires ticks >= 1 && KeyIsOurs(steps, k) && steps != [] && steps[|steps| - 1].Tick?
    requires Oom.InView(TrackerAfter(steps).events, k, steps[|steps| - 1].now, window)
    ensures var ins := AlertInputs(steps, window);
            && ins != []
            && (Announces(ins, k, ticks) <==> UnseenFor(ins[..|ins| - 1], k, ticks))
  {
    var pre, last := steps[..|steps| - 1], steps[|steps| - 1];
    assert TrackerAfter(steps) == TrackerAfter(pre) by {
      assert InputsOf(pre) + [] == InputsOf(pre);
    }
    KillsAreCrit(steps, window, k);
    TickShows(TrackerAfter(pre), last, window, k);
    hide TickConds, TrackerAfter, Announces, UnseenFor;
    AnnouncedIff(AlertInputs(steps, window), k, ticks);
  }

  // ----- each kill raises once -----

  // The key is shown from update a up to update b, and at no other.
  ghost predicate Block(ins: seq<Alerts.Input>, k: string, a: nat, b: nat) {
    && a <= b <= |ins|
    && forall i :: 0 <= i < |ins| ==> (k in ins[i].conds <==> a <= i < b)
  }

  // The block before the last update.
  lemma BlockBefore(ins: seq<Alerts.Input>, k: string, a: nat, b: nat) returns (c: nat, d: nat)
    requires ins != [] && Block(ins, k, a, b) && OnlyCrit(ins, k)
    ensures Block(ins[..|ins| - 1], k, c, d) && OnlyCrit(ins[..|ins| - 1], k)
    ensures if a < b && a < |ins| - 1 then c == a && c < d && d == (if b == |ins| then b - 1 else b) else c == d
  {
    c, d := a, if b == |ins| then b - 1 else b;
    if a == b || a == |ins| - 1 {
      c, d := 0, 0;
    }
  }

  // While it is shown it is active, and after that for clearTicks updates more.
  lemma {:induction false} BlockState(ins: seq<Alerts.Input>, k: string, a: nat, b: nat, ticks: nat)
    requires ticks >= 1 && Block(ins, k, a, b) && OnlyCrit(ins, k)
    ensures var state := Alerts.StateAfter(ins, k, ticks);
            if a == b || |ins| - b >= ticks then state.None?
            else state.Some? && state.value.cond.sev.Crit? && state.value.missing == |ins| - b
  {
    if ins != [] {
      var c, d := BlockBefore(ins, k, a, b);
      BlockState(ins[..|ins| - 1], k, c, d, ticks);
    }
  }

  ghost predicate OneAnnouncement(events: seq<Alerts.Entry>, when: int, cleared: nat) {
    && |events| == 1 + cleared
    && !events[0].cleared && events[0].sev.Crit? && events[0].when == when
    && (|events| == 2 ==> events[1].cleared && events[1].sev.Crit?)
  }

  // So it is announced at a, and cleared when it has been away for clearTicks updates.
  lemma {:induction false} BlockEvents(ins: seq<Alerts.Input>, k: string, a: nat, b: nat, ticks: nat)
    requires ticks >= 1 && Block(ins, k, a, b) && OnlyCrit(ins, k)
    ensures var events := Alerts.EventsOf(ins, k, ticks);
            if a == b then events == []
            else OneAnnouncement(events, ins[a].now, if |ins| - b >= ticks then 1 else 0)
  {
    if ins != [] {
      var pre := ins[..|ins| - 1];
      var c, d := BlockBefore(ins, k, a, b);
      BlockEvents(pre, k, c, d, ticks);
      BlockState(pre, k, c, d, ticks);
      hide Alerts.StateAfter;
      assert Alerts.EventsOf(ins, k, ticks) == Alerts.EventsOf(pre, k, ticks) + Alerts.NewestEvents(ins, k, ticks);
    }
  }

  // What a run knows of a key: the ticks that showed it are in a row, and once they are over nothing on
  // the list can show it again.
  ghost predicate KeyFacts(ins: seq<Alerts.Input>, inputs: seq<Oom.Input>, window: int, k: string, a: nat, b: nat) {
    && Block(ins, k, a, b)
    && (a == b ==> a == |ins|)
    && (a < b ==> Oom.Raised(inputs, k))
    && (a < b < |ins| ==> Outdated(Oom.After(inputs).events, k, ins[|ins| - 1].now, window))
  }

  ghost predicate KeyInv(steps: seq<Step>, window: int, k: string, a: nat, b: nat) {
    KeyFacts(AlertInputs(steps, window), InputsOf(steps), window, k, a, b)
  }

  ghost predicate Outdated(events: seq<Oom.Event>, k: string, now: int, window: int) {
    forall e :: e in events && e.key == k ==> now - e.at >= window
  }

  lemma InputKeepsFacts(ins: seq<Alerts.Input>, inputs: seq<Oom.Input>, input: Oom.Input, window: int, k: string, a: nat, b: nat)
    requires KeyFacts(ins, inputs, window, k, a, b) && Oom.RaisedOnce(inputs + [input], k)
    ensures KeyFacts(ins, inputs + [input], window, k, a, b)
  {
    Oom.AfterOneMore(inputs, input);
    hide Oom.After, Oom.Told, Oom.RaisedKey, Block;
    if a < b {
      NotRaisedAgain(inputs, input, k);
      var t := Oom.After(inputs);
      forall e | e in Oom.Told(t, input).events && e.key == k ensures e in t.events {
        OldKill(t, input, e);
      }
    }
  }

  lemma NotRaisedAgain(inputs: seq<Oom.Input>, input: Oom.Input, k: string)
    requires Oom.Raised(inputs, k) && Oom.RaisedOnce(inputs + [input], k)
    ensures Oom.Raised(inputs + [input], k) && Oom.RaisedKey(Oom.After(inputs), input) != Some(k)
  {
    Oom.RaisedStays(inputs, input, k);
    hide Oom.RaisedAt, Oom.RaisedKey, Oom.After;
    var i :| Oom.RaisedAt(inputs, i, k);
    RaisedInRange(inputs, i, k);
    assert Oom.RaisedAt(inputs + [input], i, k);
  }

  lemma RaisedInRange(inputs: seq<Oom.Input>, i: nat, k: string)
    requires Oom.RaisedAt(inputs, i, k)
    ensures i < |inputs|
  {}

  lemma InputKeepsKey(pre: seq<Step>, input: Oom.Input, window: int, k: string, a: nat, b: nat)
    requires KeyInv(pre, window, k, a, b) && Oom.RaisedOnce(InputsOf(pre) + [input], k)
    ensures KeyInv(pre + [Told(input)], window, k, a, b)
  {
    var steps := pre + [Told(input)];
    assert steps[..|pre|] == pre;
    assert InputsOf(steps) == InputsOf(pre) + [input];
    assert AlertInputs(steps, window) == AlertInputs(pre, window);
    hide KeyFacts;
    InputKeepsFacts(AlertInputs(pre, window), InputsOf(pre), input, window, k, a, b);
  }

  lemma OldKill(t: Oom.Tracker, input: Oom.Input, e: Oom.Event)
    requires e in Oom.Told(t, input).events && Oom.RaisedKey(t, input) != Some(e.key)
    ensures e in t.events
  {
    Oom.ToldEvents(t, input, e);
    hide Oom.Told, Oom.CountKey, Oom.LogKey;
  }

  lemma TickKeepsFacts(ins: seq<Alerts.Input>, inputs: seq<Oom.Input>, conds: map<string, Alerts.Cond>, now: int, window: int, k: string, a: nat, b: nat)
    returns (a': nat, b': nat)
    requires KeyFacts(ins, inputs, window, k, a, b) && (ins != [] ==> ins[|ins| - 1].now <= now)
    requires k in conds <==> Oom.InView(Oom.After(inputs).events, k, now, window)
    ensures KeyFacts(ins + [Alerts.Input(conds, now)], inputs, window, k, a', b')
  {
    hide Oom.After, Oom.Raised;
    if k in conds {
      var e :| e in Oom.After(inputs).events && e.key == k && now - e.at < window;
      Oom.ListedWasRaised(inputs, e);
      assert !(a < b < |ins|);
      a', b' := a, |ins| + 1;
    } else if a == b {
      a', b' := |ins| + 1, |ins| + 1;
    } else {
      a', b' := a, b;
    }
  }

  lemma TickExtends(pre: seq<Step>, tick: Step, window: int)
    requires tick.Tick?
    ensures InputsOf(pre + [tick]) == InputsOf(pre)
    ensures AlertInputs(pre + [tick], window) ==
            AlertInputs(pre, window) + [Alerts.Input(TickConds(Oom.After(InputsOf(pre)), tick, window), tick.now)]
  {
    hide TickConds, Oom.After;
    assert (pre + [tick])[..|pre|] == pre;
  }

  lemma TickKeepsKey(pre: seq<Step>, tick: Step, window: int, k: string, a: nat, b: nat) returns (a': nat, b': nat)
    requires KeyInv(pre, window, k, a, b) && tick.Tick? && k !in tick.others
    requires TicksInOrder(pre + [tick])
    ensures KeyInv(pre + [tick], window, k, a', b')
  {
    hide KeyFacts, TickConds, Oom.InView, Oom.After, InputsOf, AlertInputs, TicksInOrder, TrackerAfter;
    var inputs, ins := InputsOf(pre), AlertInputs(pre, window);
    var t := Oom.After(inputs);
    TickExtends(pre, tick, window);
    TickShows(t, tick, window, k);
    LastTickBefore(pre, tick, window);
    a', b' := TickKeepsFacts(ins, inputs, TickConds(t, tick, window), tick.now, window, k, a, b);
  }

  lemma StillInOrder(pre: seq<Step>, last: Step, tick: Step)
    requires TicksInOrder(pre + [last] + [tick])
    ensures TicksInOrder(pre + [tick])
  {
    var all, shorter := pre + [last] + [tick], pre + [tick];
    forall i, j | 0 <= i < j < |shorter| && shorter[i].Tick? && shorter[j].Tick? ensures shorter[i].now <= shorter[j].now {
      assert shorter[i] == all[i] && shorter[j] == all[if j < |pre| then j else |pre| + 1];
    }
  }

  // The engine's last update was no later than this tick.
  lemma {:induction false} LastTickBefore(pre: seq<Step>, tick: Step, window: int)
    requires tick.Tick? && TicksInOrder(pre + [tick])
    ensures var ins := AlertInputs(pre, window);
            ins != [] ==> ins[|ins| - 1].now <= tick.now
    decreases |pre|
  {
    if pre != [] {
      var n := |pre| - 1;
      assert pre == pre[..n] + [pre[n]];
      if pre[n].Tick? {
        var all := pre + [tick];
        assert all[n] == pre[n] && all[n + 1] == tick;
      } else {
        StillInOrder(pre[..n], pre[n], tick);
        hide TicksInOrder;
        LastTickBefore(pre[..n], tick, window);
      }
    }
    hide TickConds, TrackerAfter;
  }

  lemma {:induction false} RunKeepsKey(steps: seq<Step>, window: int, k: string) returns (a: nat, b: nat)
    requires TicksInOrder(steps) && KeyIsOurs(steps, k) && Oom.RaisedOnce(InputsOf(steps), k)
    ensures KeyInv(steps, window, k, a, b)
  {
    if steps == [] {
      a, b := 0, 0;
    } else {
      var pre, last := steps[..|steps| - 1], steps[|steps| - 1];
      assert steps == pre + [last];
      RaisedOnceBefore(InputsOf(steps), InputsOf(pre), k);
      hide KeyInv, Oom.RaisedOnce;
      a, b := RunKeepsKey(pre, window, k);
      if last.Told? {
        InputKeepsKey(pre, last.input, window, k, a, b);
      } else {
        a, b := TickKeepsKey(pre, last, window, k, a, b);
      }
    }
  }

  lemma RaisedOnceBefore(inputs: seq<Oom.Input>, pre: seq<Oom.Input>, k: string)
    requires Oom.RaisedOnce(inputs, k) && (inputs == pre || (inputs != [] && pre == inputs[..|inputs| - 1]))
    ensures Oom.RaisedOnce(pre, k)
  {
    if inputs != pre {
      assert inputs == pre + [inputs[|inputs| - 1]];
      Oom.RaisedStays(pre, inputs[|inputs| - 1], k);
    }
    hide Oom.RaisedAt;
  }

  ghost predicate EverShown(ins: seq<Alerts.Input>, k: string) {
    exists i: nat :: Shown(ins, i, k)
  }

  // A kill whose key no other input raises is announced once, at the first tick that shows it, and
  // cleared at most once; it is announced exactly if some tick shows it.
  lemma KillIsAnnouncedOnce(steps: seq<Step>, window: int, k: string, ticks: nat)
    requires ticks >= 1 && TicksInOrder(steps) && KeyIsOurs(steps, k)
    requires Oom.RaisedOnce(InputsOf(steps), k)
    ensures var ins := AlertInputs(steps, window);
            var events := Alerts.EventsOf(ins, k, ticks);
            if !EverShown(ins, k) then events == []
            else
              && 1 <= |events| <= 2 && !events[0].cleared && events[0].sev.Crit?
              && (|events| == 2 ==> events[1].cleared)
              && exists i: nat :: Shown(ins, i, k) && (forall j :: 0 <= j < i ==> k !in ins[j].conds) && events[0].when == ins[i].now
  {
    var ins := AlertInputs(steps, window);
    var a, b := RunKeepsKey(steps, window, k);
    KillsAreCrit(steps, window, k);
    hide AlertInputs, InputsOf, Alerts.EventsOf, Alerts.StateAfter, OnlyCrit;
    BlockEvents(ins, k, a, b, ticks);
    if a < b {
      assert Shown(ins, a, k);
    }
  }

  // While the counter never falls that holds of every key of the tracker.
  lemma EveryKillIsAnnouncedOnce(steps: seq<Step>, window: int, k: string, ticks: nat)
    requires ticks >= 1 && TicksInOrder(steps) && KeyIsOurs(steps, k)
    requires Oom.NeverFalls(InputsOf(steps))
    ensures var ins := AlertInputs(steps, window);
            var events := Alerts.EventsOf(ins, k, ticks);
            if EverShown(ins, k) then 1 <= |events| <= 2 && !events[0].cleared && (|events| == 2 ==> events[1].cleared)
            else events == []
  {
    Oom.NeverFallsRaisesOnce(InputsOf(steps), k);
    hide *;
    KillIsAnnouncedOnce(steps, window, k, ticks);
  }

  // ----- a silent kill -----

  // The counter of Oom.FALLING, with a tick after each of its two kills.
  function SilentRun(clock: int -> string): seq<Step> {
    [Told(Oom.FALLING[0]), Told(Oom.FALLING[1]), Tick(1, map[], clock), Told(Oom.FALLING[2]), Told(Oom.FALLING[3]), Tick(3, map[], clock)]
  }

  // Two kills, one announcement: the second finds its key still shown.
  lemma SecondKillIsSilent(clock: int -> string, ticks: nat)
    requires ticks >= 1
    ensures |TrackerAfter(SilentRun(clock)).events| == 2
    ensures |Alerts.EventsOf(AlertInputs(SilentRun(clock), Oom.WIDE), Oom.CountKey(6), ticks)| == 1
  {
    hide *;
    var first, second := SilentConds(clock);
    TwiceShown(first, second, Oom.CountKey(6), ticks);
  }

  lemma TwiceShown(first: map<string, Alerts.Cond>, second: map<string, Alerts.Cond>, k: string, ticks: nat)
    requires ticks >= 1 && k in first && first[k].sev.Crit? && k in second && second[k].sev.Crit?
    ensures |Alerts.EventsOf([Alerts.Input(first, 1), Alerts.Input(second, 3)], k, ticks)| == 1
  {
    hide Alerts.EventsOf;
    BlockEvents([Alerts.Input(first, 1), Alerts.Input(second, 3)], k, 0, 2, ticks);
  }

  lemma SilentConds(clock: int -> string) returns (first: map<string, Alerts.Cond>, second: map<string, Alerts.Cond>)
    ensures AlertInputs(SilentRun(clock), Oom.WIDE) == [Alerts.Input(first, 1), Alerts.Input(second, 3)]
    ensures |TrackerAfter(SilentRun(clock)).events| == 2
    ensures var k := Oom.CountKey(6);
            k in first && first[k].sev.Crit? && k in second && second[k].sev.Crit?
  {
    var steps, k := SilentRun(clock), Oom.CountKey(6);
    Oom.FallingCounter();
    SilentInputs(clock);
    var t, u := TrackerAfter(steps[..2]), TrackerAfter(steps[..5]);
    hide Oom.CountKey;
    first, second := TickConds(t, steps[2], Oom.WIDE), TickConds(u, steps[5], Oom.WIDE);
    assert t.events[0] in t.events && u.events[0] in u.events;
    TickShows(t, steps[2], Oom.WIDE, k);
    TickShows(u, steps[5], Oom.WIDE, k);
    hide TickConds, Oom.After, TrackerAfter;
    SilentAlerts(clock);
  }

  lemma Cut(clock: int -> string)
    ensures var s := SilentRun(clock);
            && s[..6] == s && s[..0] == []
            && s[..6][..5] == s[..5] && s[..5][..4] == s[..4] && s[..4][..3] == s[..3]
            && s[..3][..2] == s[..2] && s[..2][..1] == s[..1] && s[..1][..0] == []
  {}

  lemma SilentInputs(clock: int -> string)
    ensures var s := SilentRun(clock);
            && InputsOf(s[..2]) == Oom.FALLING[..2] && InputsOf(s[..5]) == Oom.FALLING && InputsOf(s) == Oom.FALLING
  {
    Cut(clock);
    var s := SilentRun(clock);
    assert InputsOf(s[..1]) == [Oom.FALLING[0]];
    assert InputsOf(s[..2]) == [Oom.FALLING[0], Oom.FALLING[1]] == Oom.FALLING[..2];
    assert InputsOf(s[..3]) == InputsOf(s[..2]);
    assert InputsOf(s[..4]) == Oom.FALLING[..2] + [Oom.FALLING[2]];
    assert InputsOf(s[..5]) == Oom.FALLING[..2] + [Oom.FALLING[2]] + [Oom.FALLING[3]] == Oom.FALLING;
  }

  lemma SilentAlerts(clock: int -> string)
    ensures var s := SilentRun(clock);
            AlertInputs(s, Oom.WIDE) ==
            [Alerts.Input(TickConds(TrackerAfter(s[..2]), s[2], Oom.WIDE), 1), Alerts.Input(TickConds(TrackerAfter(s[..5]), s[5], Oom.WIDE), 3)]
  {
    Cut(clock);
    hide TickConds, TrackerAfter;
    var s := SilentRun(clock);
    assert AlertInputs(s[..1][..0], Oom.WIDE) == [];
    assert AlertInputs(s[..1], Oom.WIDE) == [];
    assert AlertInputs(s[..2], Oom.WIDE) == AlertInputs(s[..1], Oom.WIDE) + [];
    assert AlertInputs(s[..3], Oom.WIDE) == [Alerts.Input(TickConds(TrackerAfter(s[..2]), s[2], Oom.WIDE), 1)];
    assert AlertInputs(s[..5], Oom.WIDE) == AlertInputs(s[..4], Oom.WIDE) == AlertInputs(s[..3], Oom.WIDE);
  }
}
