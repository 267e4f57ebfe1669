/**
The OOM tracker of internal/ui/oom.go: a cumulative counter becomes events, and victims named by the
kernel log are attributed to the nearest of them.
*/
module Oom {
  import Alerts
  import opened Decimal
  import opened Strings
  import opened Wrappers

  const KEEP := 32                          // oomEventKeep
  const MATCH := 10_000_000_000             // oomVictimMatch, in nanoseconds

  datatype Event = Event(at: int, n: nat, key: string)

  datatype Victim = Victim(at: int, pid: nat, comm: string)

  datatype Tracker = Tracker(primed: bool, last: nat, session: nat, events: seq<Event>, victims: seq<Victim>, logged: nat)

  // The two ways the tracker learns of a kill.
  datatype Input =
    | Reading(count: nat, now: int, window: int)
    | LogLine(victim: Victim, counted: bool, window: int)

  const EMPTY := Tracker(false, 0, 0, [], [], 0)

  function CountKey(count: nat): string {
    "oom:" + Itoa(count)
  }

  function LogKey(n: nat): string {
    "oom:log" + Itoa(n)
  }

  // uint64 addition
  function Add64(x: nat, y: nat): nat {
    (x + y) % 0x1_0000_0000_0000_0000
  }

  // ----- one input -----

  function Recent(events: seq<Event>, now: int, window: int): seq<Event> {
    if events == [] then []
    else
      var n := |events| - 1;
      Recent(events[..n], now, window) + (if now - events[n].at < window then [events[n]] else [])
  }

  function Pruned(events: seq<Event>, now: int, window: int): seq<Event> {
    LastN(Recent(events, now, window), KEEP)
  }

  function Observed(t: Tracker, count: nat, now: int, window: int): Tracker {
    var raised := t.primed && count > t.last;
    var n := if raised then count - t.last else 0;
    var events := if raised then t.events + [Event(now, n, CountKey(count))] else t.events;
    Tracker(true, count, Add64(t.session, n), Pruned(events, now, window), t.victims, t.logged)
  }

  function WithVictim(t: Tracker, v: Victim, counted: bool, window: int): Tracker {
    var victims := LastN(t.victims + [v], KEEP);
    if counted then t.(victims := victims)
    else
      var events := t.events + [Event(v.at, 1, LogKey(t.logged + 1))];
      Tracker(t.primed, t.last, Add64(t.session, 1), Pruned(events, v.at, window), victims, t.logged + 1)
  }

  function Told(t: Tracker, input: Input): Tracker {
    match input
    case Reading(count, now, window) => Observed(t, count, now, window)
    case LogLine(v, counted, window) => WithVictim(t, v, counted, window)
  }

  function After(inputs: seq<Input>): Tracker {
    if inputs == [] then EMPTY else Told(After(inputs[..|inputs| - 1]), inputs[|inputs| - 1])
  }

  lemma AfterOneMore(inputs: seq<Input>, input: Input)
    ensures After(inputs + [input]) == Told(After(inputs), input)
  {
    assert (inputs + [input])[..|inputs|] == inputs;
  }

  // ----- attribution -----

  function Distance(v: Victim, e: Event): nat {
    if v.at < e.at then e.at - v.at else v.at - e.at
  }

  // b is the event nearest to v and within the match, the first of equals; -1 when there is none.
  ghost predicate Nearest(v: Victim, events: seq<Event>, b: int) {
    && -1 <= b < |events|
    && (b >= 0 ==> Distance(v, events[b]) < 10_000_000_000)
    && forall i :: 0 <= i < |events| ==>
         if b < 0 then Distance(v, events[i]) >= 10_000_000_000
         else if i < b then Distance(v, events[i]) > Distance(v, events[b])
         else Distance(v, events[i]) >= Distance(v, events[b])
  }

  // The victim belongs to the kill with this key.
  ghost predicate BelongsTo(v: Victim, events: seq<Event>, key: string) {
    exists b :: 0 <= b < |events| && Nearest(v, events, b) && events[b].key == key
  }

  // The positions of the first `limit` victims that belong to the key, oldest first.
  ghost function Attributed(victims: seq<Victim>, events: seq<Event>, key: string, limit: nat): (r: seq<nat>)
    ensures |r| <= limit
    ensures forall i :: 0 <= i < |r| ==> r[i] < |victims| && BelongsTo(victims[r[i]], events, key)
    ensures forall i, j :: 0 <= i < j < |r| ==> r[i] < r[j]
  {
    if victims == [] then []
    else
      var n := |victims| - 1;
      var r := Attributed(victims[..n], events, key, limit);
      if BelongsTo(victims[n], events, key) && |r| < limit then r + [n] else r
  }

  function NameOf(v: Victim): string {
    v.comm + " (pid " + Itoa(v.pid) + ")"
  }

  ghost function NamesAt(victims: seq<Victim>, at: seq<nat>): (names: seq<string>)
    requires forall i :: 0 <= i < |at| ==> at[i] < |victims|
    ensures |names| == |at|
  {
    seq(|at|, i requires 0 <= i < |at| => NameOf(victims[at[i]]))
  }

  // ----- conditions -----

  function JoinNames(names: seq<string>): string {
    if names == [] then "" else if |names| == 1 then names[0] else JoinNames(names[..|names| - 1]) + ", " + names[|names| - 1]
  }

  // Who was killed, as far as the log named them.
  function What(names: seq<string>, n: nat): string
    requires |names| <= n
  {
    if names != [] && |names| == n then JoinNames(names)
    else if names != [] then JoinNames(names) + " and " + (Itoa(n - |names|) + " more") + " (dmesg names them)"
    else if n > 1 then (Itoa(n) + " processes") + " (dmesg names them)"
    else "a process (dmesg names it)"
  }

  function CondFor(names: seq<string>, e: Event, clock: int -> string): Alerts.Cond
    requires |names| <= e.n
  {
    Alerts.Cond(Alerts.Crit, "out of memory: the kernel killed " + What(names, e.n) + " at " + clock(e.at))
  }

  // The condition of a kill, with the victims attributed to it.
  ghost function CondOf(victims: seq<Victim>, events: seq<Event>, e: Event, clock: int -> string): Alerts.Cond {
    CondFor(NamesAt(victims, Attributed(victims, events, e.key, e.n)), e, clock)
  }

  // The conditions of the kills in `shown` that are still inside the window.
  ghost function CondsOf(victims: seq<Victim>, events: seq<Event>, shown: seq<Event>, now: int, window: int, clock: int -> string)
    : map<string, Alerts.Cond>
  {
    if shown == [] then map[]
    else
      var m, e := CondsOf(victims, events, shown[..|shown| - 1], now, window, clock), shown[|shown| - 1];
      if now - e.at < window then m[e.key := CondOf(victims, events, e, clock)] else m
  }

  // A kill with this key is inside the window.
  ghost predicate InView(events: seq<Event>, key: string, now: int, window: int) {
    exists e :: e in events && e.key == key && now - e.at < window
  }

  // ----- the code -----

  class OomTracker {
    var primed: bool
    var last: nat
    var session: nat
    var events: seq<Event>
    var victims: seq<Victim>
    var logged: nat

    ghost var inputs: seq<Input>  // everything it was told

    function View(): Tracker
      reads this
    {
      Tracker(primed, last, session, events, victims, logged)
    }

    ghost predicate Valid()
      reads this
    {
      View() == After(inputs)
    }

    constructor ()
      ensures Valid() && inputs == []
    {
      primed, last, session, events, victims, logged := false, 0, 0, [], [], 0;
      inputs := [];
    }

    method Observe(count: nat, now: int, window: int)
      requires Valid()
      modifies this
      ensures Valid() && inputs == old(inputs) + [Reading(count, now, window)]
    {
      hide Pruned;
      inputs := inputs + [Reading(count, now, window)];
      assert inputs[..|inputs| - 1] == old(inputs);
      if primed && count > last {
        var n := count - last;
        session := Add64(session, n);
        events := events + [Event(now, n, CountKey(count))];
      } else {
        SessionFits(old(inputs));
      }
      primed, last := true, count;
      Prune(now, window);
    }

    method Prune(now: int, window: int)
      modifies `events
      ensures events == Pruned(old(events), now, window)
    {
      var keep: seq<Event> := [];
      for i := 0 to |events|
        invariant events == old(events)
        invariant keep == Recent(events[..i], now, window)
      {
        assert events[..i + 1][..i] == events[..i];
        if now - events[i].at < window {
          keep := keep + [events[i]];
        }
      }
      assert events[..|events|] == events;
      if |keep| > KEEP {
        keep := keep[|keep| - KEEP..];
      }
      events := keep;
    }

    method AddVictim(v: Victim, counted: bool, window: int)
      requires Valid()
      modifies this
      ensures Valid() && inputs == old(inputs) + [LogLine(v, counted, window)]
    {
      hide Pruned;
      inputs := inputs + [LogLine(v, counted, window)];
      assert inputs[..|inputs| - 1] == old(inputs);
      victims := victims + [v];
      if |victims| > KEEP {
        victims := victims[|victims| - KEEP..];
      }
      if !counted {
        logged := logged + 1;
        session := Add64(session, 1);
        events := events + [Event(v.at, 1, LogKey(logged))];
        Prune(v.at, window);
      }
    }

    // The victims attributed to a kill, at most as many as it killed.
    method Named(e: Event) returns (names: seq<string>)
      ensures names == NamesAt(victims, Attributed(victims, events, e.key, e.n))
    {
      hide Nearest, BelongsTo;
      names := [];
      ghost var at: seq<nat> := [];
      for i := 0 to |victims|
        invariant at == Attributed(victims[..i], events, e.key, e.n)
        invariant names == NamesAt(victims, at)
      {
        assert victims[..i + 1][..i] == victims[..i];
        var best := FindNearest(victims[i], events);
        BelongsToNearest(victims[i], events, best, e.key);
        if best >= 0 && events[best].key == e.key && |names| < e.n {
          names := names + [NameOf(victims[i])];
          at := at + [i];
        }
      }
      assert victims[..|victims|] == victims;
    }

    method Conds(conds: map<string, Alerts.Cond>, now: int, window: int, clock: int -> string)
      returns (r: map<string, Alerts.Cond>)
      ensures r == conds + CondsOf(victims, events, events, now, window, clock)
    {
      hide Attributed, NamesAt, CondFor, Nearest, BelongsTo;
      r := conds;
      for i := 0 to |events|
        invariant r == conds + CondsOf(victims, events, events[..i], now, window, clock)
      {
        assert events[..i + 1][..i] == events[..i];
        var e := events[i];
        if now - e.at < window {
          var names := Named(e);
          r := r[e.key := CondFor(names, e, clock)];
        }
      }
      assert events[..|events|] == events;
    }
  }

  // The inner loop of named.
  method FindNearest(v: Victim, events: seq<Event>) returns (best: int)
    ensures Nearest(v, events, best)
  {
    best := -1;
    var bestD := MATCH;
    for i := 0 to |events|
      invariant -1 <= best < i
      invariant bestD == if best < 0 then MATCH else Distance(v, events[best])
      invariant bestD <= MATCH && (best >= 0 ==> bestD < MATCH)
      invariant forall j :: 0 <= j < i ==>
        if best < 0 then Distance(v, events[j]) >= MATCH
        else if j < best then Distance(v, events[j]) > bestD
        else Distance(v, events[j]) >= bestD
    {
      var d := v.at - events[i].at;
      if d < 0 {
        d := -d;
      }
      if d < bestD {
        best, bestD := i, d;
      }
    }
  }

  lemma NearestUnique(v: Victim, events: seq<Event>, b: int)
    requires Nearest(v, events, b)
    ensures forall c :: Nearest(v, events, c) ==> c == b
  {
    forall c | Nearest(v, events, c) ensures c == b {
    }
  }

  lemma BelongsToNearest(v: Victim, events: seq<Event>, b: int, key: string)
    requires Nearest(v, events, b)
    ensures BelongsTo(v, events, key) <==> b >= 0 && events[b].key == key
  {
    NearestUnique(v, events, b);
  }

  // ----- what the conditions say -----

  // There is a condition for exactly the keys of the kills inside the window, and all are critical.
  lemma {:induction false} CondsAreInView(victims: seq<Victim>, events: seq<Event>, shown: seq<Event>, now: int, window: int, clock: int -> string, key: string)
    ensures var m := CondsOf(victims, events, shown, now, window, clock);
            (key in m <==> InView(shown, key, now, window)) && (key in m ==> m[key].sev.Crit?)
  {
    hide Attributed, NamesAt, What;
    if shown != [] {
      var pre := shown[..|shown| - 1];
      CondsAreInView(victims, events, pre, now, window, clock, key);
      assert forall e :: e in shown <==> e in pre || e == shown[|shown| - 1];
    }
  }

  // While the keys are distinct each kill inside the window has a condition of its own, which names
  // its own victims.
  lemma {:induction false} EachKillHasItsCondition(victims: seq<Victim>, events: seq<Event>, shown: seq<Event>, now: int, window: int, clock: int -> string, i: nat)
    requires DistinctKeys(shown) && i < |shown| && now - shown[i].at < window
    ensures var m := CondsOf(victims, events, shown, now, window, clock);
            shown[i].key in m && m[shown[i].key] == CondOf(victims, events, shown[i], clock)
  {
    hide CondOf;
    if i < |shown| - 1 {
      EachKillHasItsCondition(victims, events, shown[..|shown| - 1], now, window, clock, i);
    }
  }

  // How many victims belong to the key.
  ghost function Belonging(victims: seq<Victim>, events: seq<Event>, key: string): nat {
    if victims == [] then 0
    else Belonging(victims[..|victims| - 1], events, key) + (if BelongsTo(victims[|victims| - 1], events, key) then 1 else 0)
  }

  // A victim is named exactly if it belongs to the kill and fewer than the kill took belong before it:
  // everyone is named while there is room, the earliest first.
  lemma {:induction false} NamedIff(victims: seq<Victim>, events: seq<Event>, key: string, limit: nat, x: nat)
    requires x < |victims|
    ensures x in Attributed(victims, events, key, limit) <==>
            BelongsTo(victims[x], events, key) && Belonging(victims[..x], events, key) < limit
    ensures |Attributed(victims, events, key, limit)| ==
            if Belonging(victims, events, key) <= limit then Belonging(victims, events, key) else limit
  {
    hide BelongsTo;
    var n := |victims| - 1;
    var pre := victims[..n];
    if n > 0 {
      NamedIff(pre, events, key, limit, if x < n then x else 0);
    }
    if x < n {
      assert pre[..x] == victims[..x];
    }
  }

  ghost predicate Occurs(sub: string, s: string) {
    exists before: string, after: string :: s == before + sub + after
  }

  lemma OccursIn(before: string, sub: string, after: string)
    ensures Occurs(sub, before + sub + after)
  {}

  lemma OccursWithin(sub: string, s: string, before: string, after: string)
    requires Occurs(sub, s)
    ensures Occurs(sub, before + s + after)
  {
    var b: string, a: string :| s == b + sub + a;
    assert before + (b + sub + a) + after == (before + b) + sub + (a + after);
  }

  lemma {:induction false} JoinedNames(names: seq<string>, j: nat)
    requires j < |names|
    ensures Occurs(names[j], JoinNames(names))
  {
    var n := |names| - 1;
    hide Occurs;
    if n == 0 {
      OccursIn("", names[0], "");
      assert "" + names[0] + "" == names[0];
    } else if j == n {
      OccursIn(JoinNames(names[..n]) + ", ", names[n], "");
      assert JoinNames(names[..n]) + ", " + names[n] + "" == JoinNames(names);
    } else {
      JoinedNames(names[..n], j);
      OccursWithin(names[j], JoinNames(names[..n]), "", ", " + names[n]);
      assert "" + JoinNames(names[..n]) + (", " + names[n]) == JoinNames(names);
    }
  }

  lemma TextIs(names: seq<string>, e: Event, clock: int -> string)
    requires |names| <= e.n
    ensures CondFor(names, e, clock).msg ==
            "out of memory: the kernel killed " + What(names, e.n) + (" at " + clock(e.at))
    ensures Occurs(clock(e.at), CondFor(names, e, clock).msg)
  {
    hide Occurs, What;
    var head := "out of memory: the kernel killed " + What(names, e.n) + " at ";
    OccursIn(head, clock(e.at), "");
    assert head + clock(e.at) + "" == CondFor(names, e, clock).msg;
  }

  lemma FirstOccurs(sub: string, after: string)
    ensures Occurs(sub, sub + after)
  {
    OccursIn("", sub, after);
    assert "" + sub + after == sub + after;
  }

  lemma RestInWhat(names: seq<string>, n: nat)
    requires |names| <= n
    ensures 0 < |names| < n ==> Occurs(Itoa(n - |names|) + " more", What(names, n))
    ensures names == [] && n > 1 ==> Occurs(Itoa(n) + " processes", What(names, n))
  {
    hide Occurs, JoinNames, Itoa;
    if 0 < |names| < n {
      OccursIn(JoinNames(names) + " and ", Itoa(n - |names|) + " more", " (dmesg names them)");
    }
    if names == [] && n > 1 {
      FirstOccurs(Itoa(n) + " processes", " (dmesg names them)");
    }
  }

  // The text of a kill names everyone it is given, and says how many more there were.
  lemma TextTells(names: seq<string>, e: Event, clock: int -> string)
    requires |names| <= e.n
    ensures var msg := CondFor(names, e, clock).msg;
            && (forall j :: 0 <= j < |names| ==> Occurs(names[j], msg))
            && (0 < |names| < e.n ==> Occurs(Itoa(e.n - |names|) + " more", msg))
            && (names == [] && e.n > 1 ==> Occurs(Itoa(e.n) + " processes", msg))
            && Occurs(clock(e.at), msg)
  {
    hide Occurs, What, CondFor, Itoa;
    TextIs(names, e, clock);
    RestInWhat(names, e.n);
    var what, head, tail := What(names, e.n), "out of memory: the kernel killed ", " at " + clock(e.at);
    forall j | 0 <= j < |names| ensures Occurs(names[j], head + what + tail) {
      NameInWhat(names, e.n, j);
      OccursWithin(names[j], what, head, tail);
    }
    if 0 < |names| < e.n {
      OccursWithin(Itoa(e.n - |names|) + " more", what, head, tail);
    }
    if names == [] && e.n > 1 {
      OccursWithin(Itoa(e.n) + " processes", what, head, tail);
    }
  }

  lemma OccursFirst(sub: string, s: string, x: string, y: string, z: string)
    requires Occurs(sub, s)
    ensures Occurs(sub, s + x + y + z)
  {
    OccursWithin(sub, s, "", x + y + z);
    assert "" + s + (x + y + z) == s + x + y + z;
  }

  lemma NameInWhat(names: seq<string>, n: nat, j: nat)
    requires j < |names| <= n
    ensures Occurs(names[j], What(names, n))
  {
    hide Occurs, Itoa;
    JoinedNames(names, j);
    hide JoinNames;
    if |names| < n {
      OccursFirst(names[j], JoinNames(names), " and ", Itoa(n - |names|) + " more", " (dmesg names them)");
    }
  }

  // So while the keys are distinct, the condition of a kill inside the window names every victim that
  // belongs to it, as long as there are no more than it took.
  lemma VictimIsNamed(victims: seq<Victim>, events: seq<Event>, now: int, window: int, clock: int -> string, i: nat, x: nat)
    requires DistinctKeys(events) && i < |events| && now - events[i].at < window
    requires x < |victims| && BelongsTo(victims[x], events, events[i].key)
    requires Belonging(victims[..x], events, events[i].key) < events[i].n
    ensures var m := CondsOf(victims, events, events, now, window, clock);
            events[i].key in m && Occurs(victims[x].comm + " (pid " + Itoa(victims[x].pid) + ")", m[events[i].key].msg)
  {
    hide Occurs, CondFor, BelongsTo, Belonging, DistinctKeys;
    var e := events[i];
    EachKillHasItsCondition(victims, events, events, now, window, clock, i);
    NamedIff(victims, events, e.key, e.n, x);
    var at := Attributed(victims, events, e.key, e.n);
    var j: nat :| j < |at| && at[j] == x;
    TextTells(NamesAt(victims, at), e, clock);
    assert NamesAt(victims, at)[j] == NameOf(victims[x]);
  }

  // ----- the lists, written out -----

  // Pruning keeps the newest 32 of the events younger than the window, in their order: `at` lists the
  // positions of the young ones.
  lemma PrunedIs(events: seq<Event>, now: int, window: int) returns (at: seq<nat>)
    ensures forall i, j :: 0 <= i < j < |at| ==> at[i] < at[j]
    ensures forall i :: 0 <= i < |at| ==> at[i] < |events|
    ensures forall i: nat :: i < |events| ==> (i in at <==> now - events[i].at < window)
    ensures var r := Pruned(events, now, window);
            && |r| == (if |at| <= 32 then |at| else 32)
            && forall j :: 0 <= j < |r| ==> r[j] == events[at[|at| - |r| + j]]
  {
    at := RecentIs(events, now, window);
  }

  lemma {:induction false} RecentIs(events: seq<Event>, now: int, window: int) returns (at: seq<nat>)
    ensures forall i, j :: 0 <= i < j < |at| ==> at[i] < at[j]
    ensures forall i :: 0 <= i < |at| ==> at[i] < |events|
    ensures forall i: nat :: i < |events| ==> (i in at <==> now - events[i].at < window)
    ensures |Recent(events, now, window)| == |at|
    ensures forall j :: 0 <= j < |at| ==> Recent(events, now, window)[j] == events[at[j]]
  {
    at := [];
    if events != [] {
      var n := |events| - 1;
      at := RecentIs(events[..n], now, window);
      if now - events[n].at < window {
        at := at + [n];
      }
    }
  }

  // A reading above the last one puts a kill of exactly that many on the list, newest; one that is not
  // above it, and the first, put none.
  lemma ReadingRaises(t: Tracker, count: nat, now: int, window: int)
    requires window > 0
    ensures var u := Observed(t, count, now, window);
            && u.primed && u.last == count && u.victims == t.victims && u.logged == t.logged
            && (if t.primed && count > t.last
                then u.events != [] && u.events[|u.events| - 1] == Event(now, count - t.last, CountKey(count))
                else u.events == Pruned(t.events, now, window))
  {
    hide CountKey;
    assert (t.events + [Event(now, if count > t.last then count - t.last else 0, CountKey(count))])[..|t.events|] == t.events;
  }

  // A log line always becomes the newest victim, and where there is no counter the newest kill as well.
  lemma LineRaises(t: Tracker, v: Victim, counted: bool, window: int)
    requires window > 0
    ensures var u := WithVictim(t, v, counted, window);
            && u.primed == t.primed && u.last == t.last
            && u.victims != [] && u.victims[|u.victims| - 1] == v
            && (if counted then u.events == t.events
                else u.events != [] && u.events[|u.events| - 1] == Event(v.at, 1, LogKey(t.logged + 1)))
  {
    hide LogKey;
    assert (t.events + [Event(v.at, 1, LogKey(t.logged + 1))])[..|t.events|] == t.events;
  }

  // ----- conservation -----

  // Kills the counter reported after the baseline, plus kills only the log reported.
  function Kills(inputs: seq<Input>): nat {
    if inputs == [] then 0
    else
      var pre, last := inputs[..|inputs| - 1], inputs[|inputs| - 1];
      Kills(pre) + match last {
        case Reading(count, _, _) =>
          var before := LastReading(pre);
          if before.Some? && count > before.value then count - before.value else 0
        case LogLine(_, counted, _) => if counted then 0 else 1
      }
  }

  function LastReading(inputs: seq<Input>): Option<nat> {
    if inputs == [] then None
    else if inputs[|inputs| - 1].Reading? then Some(inputs[|inputs| - 1].count)
    else LastReading(inputs[..|inputs| - 1])
  }

  lemma {:induction false} SessionFits(inputs: seq<Input>)
    ensures After(inputs).session < 0x1_0000_0000_0000_0000
  {
    if inputs != [] {
      SessionFits(inputs[..|inputs| - 1]);
    }
  }

  lemma Add64Wraps(x: nat, n: nat)
    ensures Add64(x % 0x1_0000_0000_0000_0000, n) == (x + n) % 0x1_0000_0000_0000_0000
  {}

  // The session count is the number of kills reported since the baseline, in the source's uint64.
  lemma {:induction false} SessionConserved(inputs: seq<Input>)
    ensures After(inputs).session == Kills(inputs) % 0x1_0000_0000_0000_0000
    ensures LastReading(inputs) == if After(inputs).primed then Some(After(inputs).last) else None
  {
    if inputs != [] {
      var pre, last := inputs[..|inputs| - 1], inputs[|inputs| - 1];
      SessionConserved(pre);
      SessionFits(pre);
      var news := Kills(inputs) - Kills(pre);
      hide Pruned, Add64, LastN;
      Add64Wraps(Kills(pre), news);
      Add64Zero(After(pre).session);
    }
  }

  lemma Add64Zero(x: nat)
    requires x < 0x1_0000_0000_0000_0000
    ensures Add64(x, 0) == x
  {}

  // However long it runs and however wide the window, both lists stay bounded.
  lemma {:induction false} ListsBounded(inputs: seq<Input>)
    ensures |After(inputs).events| <= KEEP && |After(inputs).victims| <= KEEP
  {
    if inputs != [] {
      ListsBounded(inputs[..|inputs| - 1]);
    }
  }

  // ----- identity of kills -----

  predicate NeverFalls(inputs: seq<Input>) {
    inputs == [] ||
    var pre, last := inputs[..|inputs| - 1], inputs[|inputs| - 1];
    && NeverFalls(pre)
    && (last.Reading? && LastReading(pre).Some? ==> LastReading(pre).value <= last.count)
  }

  ghost predicate DistinctKeys(events: seq<Event>) {
    forall i, j :: 0 <= i < j < |events| ==> events[i].key != events[j].key
  }

  // Every key was made from a counter value or a log number already passed.
  ghost predicate PastKeys(events: seq<Event>, last: nat, logged: nat) {
    forall i :: 0 <= i < |events| ==> PastKey(events[i].key, last, logged)
  }

  ghost predicate PastKey(key: string, last: nat, logged: nat) {
    (exists c: nat :: c <= last && key == CountKey(c)) || (exists l: nat :: l <= logged && key == LogKey(l))
  }

  lemma KeysDiffer(c: nat, d: nat)
    ensures CountKey(c) == CountKey(d) ==> c == d
    ensures LogKey(c) == LogKey(d) ==> c == d
    ensures CountKey(c) != LogKey(d)
  {
    if CountKey(c) == CountKey(d) {
      assert Itoa(c) == CountKey(c)[4..] && Itoa(d) == CountKey(d)[4..];
      ItoaInjective(c, d);
    }
    if LogKey(c) == LogKey(d) {
      assert Itoa(c) == LogKey(c)[7..] && Itoa(d) == LogKey(d)[7..];
      ItoaInjective(c, d);
    }
    assert CountKey(c)[4] == Itoa(c)[0] && LogKey(d)[4] == 'l';
  }

  // A key made from the next value is not among the past ones.
  lemma FreshKey(events: seq<Event>, last: nat, logged: nat, key: string)
    requires PastKeys(events, last, logged)
    requires (exists c: nat :: c > last && key == CountKey(c)) || (exists l: nat :: l > logged && key == LogKey(l))
    ensures forall i :: 0 <= i < |events| ==> events[i].key != key
  {
    forall i | 0 <= i < |events| && events[i].key == key ensures false {
      assert PastKey(events[i].key, last, logged);
      if c: nat :| c > last && key == CountKey(c) {
        if d: nat :| d <= last && key == CountKey(d) {
          KeysDiffer(c, d);
        } else {
          var l: nat :| l <= logged && key == LogKey(l);
          KeysDiffer(c, l);
        }
      } else {
        var l: nat :| l > logged && key == LogKey(l);
        if d: nat :| d <= last && key == CountKey(d) {
          KeysDiffer(d, l);
        } else {
          var m: nat :| m <= logged && key == LogKey(m);
          KeysDiffer(l, m);
        }
      }
    }
  }

  // What pruning keeps is a subsequence: properties of single events and of ordered pairs survive.
  lemma {:induction false} RecentKeeps(events: seq<Event>, now: int, window: int, last: nat, logged: nat)
    requires DistinctKeys(events) && PastKeys(events, last, logged)
    ensures DistinctKeys(Recent(events, now, window)) && PastKeys(Recent(events, now, window), last, logged)
    ensures forall i :: 0 <= i < |Recent(events, now, window)| ==> Recent(events, now, window)[i] in events
  {
    if events != [] {
      var n := |events| - 1;
      RecentKeeps(events[..n], now, window, last, logged);
      forall e | e in events[..n] ensures e.key != events[n].key {}
    }
  }

  lemma PrunedKeeps(events: seq<Event>, now: int, window: int, last: nat, logged: nat)
    requires DistinctKeys(events) && PastKeys(events, last, logged)
    ensures DistinctKeys(Pruned(events, now, window)) && PastKeys(Pruned(events, now, window), last, logged)
  {
    RecentKeeps(events, now, window, last, logged);
  }

  lemma PastKeysGrow(events: seq<Event>, last: nat, logged: nat, last': nat, logged': nat)
    requires PastKeys(events, last, logged) && last <= last' && logged <= logged'
    ensures PastKeys(events, last', logged')
  {
    forall i | 0 <= i < |events| ensures PastKey(events[i].key, last', logged') {
      assert PastKey(events[i].key, last, logged);
    }
  }

  // While the counter never falls, every kill in the list has a key of its own.
  lemma {:induction false} KillsKeepTheirKeys(inputs: seq<Input>)
    requires NeverFalls(inputs)
    ensures DistinctKeys(After(inputs).events)
    ensures PastKeys(After(inputs).events, After(inputs).last, After(inputs).logged)
  {
    if inputs != [] {
      var pre, last := inputs[..|inputs| - 1], inputs[|inputs| - 1];
      KillsKeepTheirKeys(pre);
      SessionConserved(pre);
      var t := After(pre);
      hide Pruned, Recent, Itoa;
      match last {
        case Reading(count, now, window) =>
          if t.primed && count > t.last {
            KeyAdded(t.events, t.last, t.logged, Event(now, count - t.last, CountKey(count)), count, t.logged);
            PrunedKeeps(t.events + [Event(now, count - t.last, CountKey(count))], now, window, count, t.logged);
          } else {
            FirstReading(pre);
            PastKeysGrow(t.events, t.last, t.logged, count, t.logged);
            PrunedKeeps(t.events, now, window, count, t.logged);
          }
        case LogLine(v, counted, window) =>
          if !counted {
            var e := Event(v.at, 1, LogKey(t.logged + 1));
            KeyAdded(t.events, t.last, t.logged, e, t.last, t.logged + 1);
            PrunedKeeps(t.events + [e], v.at, window, t.last, t.logged + 1);
          }
      }
    }
  }

  lemma {:induction false} FirstReading(inputs: seq<Input>)
    ensures !After(inputs).primed ==> After(inputs).last == 0
  {
    if inputs != [] {
      hide Pruned;
      FirstReading(inputs[..|inputs| - 1]);
    }
  }

  lemma KeyAdded(events: seq<Event>, last: nat, logged: nat, e: Event, last': nat, logged': nat)
    requires DistinctKeys(events) && PastKeys(events, last, logged) && last <= last' && logged <= logged'
    requires (last < last' && e.key == CountKey(last')) || (logged < logged' && e.key == LogKey(logged'))
    ensures DistinctKeys(events + [e]) && PastKeys(events + [e], last', logged')
  {
    FreshKey(events, last, logged, e.key);
    PastKeysGrow(events, last, logged, last', logged');
    forall i | 0 <= i < |events + [e]| ensures PastKey((events + [e])[i].key, last', logged') {
      if i < |events| {
        assert PastKey(events[i].key, last', logged');
      }
    }
  }

  // Two kills come to share a key exactly when a new kill takes the key of one that is still on the list.
  ghost predicate Clashes(t: Tracker, count: nat, now: int, window: int) {
    && t.primed && count > t.last && window > 0
    && exists e :: e in LastN(Recent(t.events, now, window), KEEP - 1) && e.key == CountKey(count)
  }

  lemma KeysStayDistinctIff(t: Tracker, count: nat, now: int, window: int)
    requires DistinctKeys(t.events)
    ensures DistinctKeys(Observed(t, count, now, window).events) <==> !Clashes(t, count, now, window)
  {
    RecentDistinct(t.events, now, window);
    if t.primed && count > t.last {
      var e := Event(now, count - t.last, CountKey(count));
      assert (t.events + [e])[..|t.events|] == t.events;
      hide Recent, CountKey;
      var recent := Recent(t.events, now, window);
      if window > 0 {
        var kept := LastN(recent, KEEP - 1);
        AppendedIsLast(recent, e);
        DistinctAppend(kept, e);
      }
    }
  }

  lemma DistinctAppend(events: seq<Event>, e: Event)
    requires DistinctKeys(events)
    ensures DistinctKeys(events + [e]) <==> !exists d :: d in events && d.key == e.key
  {
    var all := events + [e];
    if d :| d in events && d.key == e.key {
      var i :| 0 <= i < |events| && events[i] == d;
      assert all[i].key == all[|events|].key;
    }
  }

  lemma AppendedIsLast(events: seq<Event>, e: Event)
    ensures LastN(events + [e], KEEP) == LastN(events, KEEP - 1) + [e]
  {}

  lemma {:induction false} RecentDistinct(events: seq<Event>, now: int, window: int)
    requires DistinctKeys(events)
    ensures DistinctKeys(Recent(events, now, window))
    ensures forall e :: e in Recent(events, now, window) ==> e in events
  {
    if events != [] {
      var n := |events| - 1;
      RecentDistinct(events[..n], now, window);
      forall e | e in events[..n] ensures e.key != events[n].key {}
    }
  }

  // ----- keys over whole runs -----

  // Whatever the counter does, a key is a counter value's or a log number already used.
  ghost predicate KnownKeys(events: seq<Event>, logged: nat) {
    forall e :: e in events ==> KnownKey(e.key, logged)
  }

  ghost predicate KnownKey(key: string, logged: nat) {
    (exists c: nat :: key == CountKey(c)) || (exists l: nat :: l <= logged && key == LogKey(l))
  }

  lemma {:induction false} RecentSubset(events: seq<Event>, now: int, window: int)
    ensures forall e :: e in Recent(events, now, window) ==> e in events
  {
    if events != [] {
      RecentSubset(events[..|events| - 1], now, window);
    }
  }

  lemma KnownKeyGrows(key: string, logged: nat)
    requires KnownKey(key, logged)
    ensures KnownKey(key, logged + 1)
  {
    if l: nat :| l <= logged && key == LogKey(l) {
      assert l <= logged + 1;
    }
  }

  // The event an input raises.
  predicate Raises(t: Tracker, input: Input, e: Event) {
    match input
    case Reading(count, now, window) => t.primed && count > t.last && e == Event(now, count - t.last, CountKey(count))
    case LogLine(v, counted, window) => !counted && e == Event(v.at, 1, LogKey(t.logged + 1))
  }

  lemma PrunedSubset(events: seq<Event>, now: int, window: int)
    ensures forall e :: e in Pruned(events, now, window) ==> e in events
  {
    RecentSubset(events, now, window);
  }

  // Every kill on the list was there before or has just been raised.
  lemma ToldEvents(t: Tracker, input: Input, e: Event)
    requires e in Told(t, input).events
    ensures e in t.events || Raises(t, input, e)
    ensures Told(t, input).logged == t.logged + (if input.LogLine? && !input.counted then 1 else 0)
  {
    hide Pruned, CountKey, LogKey;
    match input {
      case Reading(count, now, window) =>
        PrunedSubset(t.events, now, window);
        if t.primed && count > t.last {
          PrunedSubset(t.events + [Event(now, count - t.last, CountKey(count))], now, window);
        }
      case LogLine(v, counted, window) =>
        PrunedSubset(t.events + [Event(v.at, 1, LogKey(t.logged + 1))], v.at, window);
    }
  }

  lemma {:induction false} RunKeepsKnownKeys(inputs: seq<Input>)
    ensures KnownKeys(After(inputs).events, After(inputs).logged)
  {
    if inputs != [] {
      var pre, last := inputs[..|inputs| - 1], inputs[|inputs| - 1];
      RunKeepsKnownKeys(pre);
      var t := After(pre);
      hide Told, KnownKey, CountKey, LogKey;
      forall e | e in After(inputs).events ensures KnownKey(e.key, After(inputs).logged) {
        ToldEvents(t, last, e);
        if e in t.events {
          KnownKeyGrows(e.key, t.logged);
        } else if last.Reading? {
          KeysOfInput(t.logged, e.key, last.count);
        } else {
          LogKeyIsKnown(t.logged + 1);
        }
      }
    }
  }

  lemma KeysOfInput(logged: nat, key: string, count: nat)
    requires key == CountKey(count)
    ensures KnownKey(key, logged)
  {}

  lemma LogKeyIsKnown(logged: nat)
    ensures KnownKey(LogKey(logged), logged)
  {}

  lemma NextLogKeyIsNew(key: string, logged: nat)
    requires KnownKey(key, logged)
    ensures key != LogKey(logged + 1)
  {
    if key == LogKey(logged + 1) {
      if c: nat :| key == CountKey(c) {
        KeysDiffer(c, logged + 1);
      } else {
        var l: nat :| l <= logged && key == LogKey(l);
        KeysDiffer(l, logged + 1);
      }
    }
  }

  // A log line never makes two keys equal.
  lemma LogLineKeepsDistinct(t: Tracker, v: Victim, counted: bool, window: int)
    requires DistinctKeys(t.events) && KnownKeys(t.events, t.logged)
    ensures DistinctKeys(WithVictim(t, v, counted, window).events)
  {
    hide Recent, LogKey, KnownKey;
    var e := Event(v.at, 1, LogKey(t.logged + 1));
    forall d | d in t.events ensures d.key != e.key {
      NextLogKeyIsNew(d.key, t.logged);
    }
    DistinctAppend(t.events, e);
    RecentDistinct(t.events + [e], v.at, window);
  }

  ghost predicate ClashAt(inputs: seq<Input>, i: nat) {
    && i < |inputs| && inputs[i].Reading?
    && Clashes(After(inputs[..i]), inputs[i].count, inputs[i].now, inputs[i].window)
  }

  ghost predicate NeverClashes(inputs: seq<Input>) {
    forall i :: 0 <= i < |inputs| ==> !ClashAt(inputs, i)
  }

  ghost predicate DistinctAfter(inputs: seq<Input>, m: nat) {
    m <= |inputs| && DistinctKeys(After(inputs[..m]).events)
  }

  lemma DistinctStepIff(inputs: seq<Input>, i: nat)
    requires i < |inputs| && DistinctAfter(inputs, i)
    ensures DistinctAfter(inputs, i + 1) <==> !ClashAt(inputs, i)
  {
    hide Clashes, Observed, WithVictim, DistinctKeys;
    assert inputs[..i + 1] == inputs[..i] + [inputs[i]];
    AfterOneMore(inputs[..i], inputs[i]);
    match inputs[i] {
      case Reading(count, now, window) => KeysStayDistinctIff(After(inputs[..i]), count, now, window);
      case LogLine(v, counted, window) =>
        RunKeepsKnownKeys(inputs[..i]);
        LogLineKeepsDistinct(After(inputs[..i]), v, counted, window);
    }
  }

  lemma {:induction false} DistinctUpTo(inputs: seq<Input>, m: nat)
    requires m <= |inputs| && NeverClashes(inputs)
    ensures DistinctAfter(inputs, m)
  {
    if m > 0 {
      DistinctUpTo(inputs, m - 1);
      DistinctStepIff(inputs, m - 1);
    }
  }

  // Over any run, the kills on the list have different keys at every moment exactly when no reading
  // raises a kill at a counter value whose key a kill still on the list has. Log lines cannot clash.
  lemma KeysDistinctThroughoutIff(inputs: seq<Input>)
    ensures (forall m :: 0 <= m <= |inputs| ==> DistinctAfter(inputs, m)) <==> NeverClashes(inputs)
  {
    hide DistinctAfter, ClashAt;
    if forall m :: 0 <= m <= |inputs| ==> DistinctAfter(inputs, m) {
      forall i | 0 <= i < |inputs| ensures !ClashAt(inputs, i) {
        DistinctStepIff(inputs, i);
        assert DistinctAfter(inputs, i + 1);
      }
    }
    if NeverClashes(inputs) {
      forall m | 0 <= m <= |inputs| ensures DistinctAfter(inputs, m) {
        DistinctUpTo(inputs, m);
      }
    }
  }

  lemma {:induction false} NeverFallsBefore(inputs: seq<Input>, m: nat)
    requires NeverFalls(inputs) && m <= |inputs|
    ensures NeverFalls(inputs[..m])
    decreases |inputs|
  {
    if m < |inputs| {
      var pre := inputs[..|inputs| - 1];
      NeverFallsBefore(pre, m);
      assert pre[..m] == inputs[..m];
    } else {
      assert inputs[..m] == inputs;
    }
  }

  // A counter that never falls never clashes.
  lemma NeverFallsNeverClashes(inputs: seq<Input>)
    requires NeverFalls(inputs)
    ensures NeverClashes(inputs)
  {
    forall m | 0 <= m <= |inputs| ensures DistinctAfter(inputs, m) {
      NeverFallsBefore(inputs, m);
      KillsKeepTheirKeys(inputs[..m]);
    }
    KeysDistinctThroughoutIff(inputs);
  }

  // The key of the kill an input raises.
  function RaisedKey(t: Tracker, input: Input): Option<string> {
    match input
    case Reading(count, _, _) => if t.primed && count > t.last then Some(CountKey(count)) else None
    case LogLine(_, counted, _) => if counted then None else Some(LogKey(t.logged + 1))
  }

  ghost predicate RaisedAt(inputs: seq<Input>, i: nat, key: string) {
    i < |inputs| && RaisedKey(After(inputs[..i]), inputs[i]) == Some(key)
  }

  ghost predicate Raised(inputs: seq<Input>, key: string) {
    exists i :: RaisedAt(inputs, i, key)
  }

  ghost predicate RaisedOnce(inputs: seq<Input>, key: string) {
    forall i, j :: 0 <= i < j < |inputs| ==> !(RaisedAt(inputs, i, key) && RaisedAt(inputs, j, key))
  }

  lemma RaisedStays(pre: seq<Input>, input: Input, key: string)
    ensures Raised(pre, key) ==> Raised(pre + [input], key)
    ensures RaisedKey(After(pre), input) == Some(key) ==> RaisedAt(pre + [input], |pre|, key)
    ensures forall i :: 0 <= i < |pre| ==> (RaisedAt(pre, i, key) <==> RaisedAt(pre + [input], i, key))
  {
    hide After, RaisedKey;
    var all := pre + [input];
    assert all[..|pre|] == pre;
    forall i | 0 <= i < |pre| ensures RaisedAt(pre, i, key) <==> RaisedAt(all, i, key) {
      assert all[..i] == pre[..i];
    }
    if Raised(pre, key) {
      var i :| RaisedAt(pre, i, key);
      assert RaisedAt(all, i, key);
    }
  }

  // Every kill on the list was raised by some input.
  lemma {:induction false} ListedWasRaised(inputs: seq<Input>, e: Event)
    requires e in After(inputs).events
    ensures Raised(inputs, e.key)
  {
    if inputs != [] {
      var pre, last := inputs[..|inputs| - 1], inputs[|inputs| - 1];
      assert inputs == pre + [last];
      ToldEvents(After(pre), last, e);
      RaisedStays(pre, last, e.key);
      hide Told, CountKey, LogKey, RaisedAt;
      if e in After(pre).events {
        ListedWasRaised(pre, e);
      } else {
        assert RaisedAt(inputs, |pre|, e.key);
      }
    }
  }

  lemma {:induction false} LastAtLeast(inputs: seq<Input>, i: nat)
    requires NeverFalls(inputs) && i < |inputs| && inputs[i].Reading?
    ensures After(inputs).primed && inputs[i].count <= After(inputs).last
  {
    var pre, last := inputs[..|inputs| - 1], inputs[|inputs| - 1];
    SessionConserved(pre);
    hide Pruned, Add64;
    if i < |pre| {
      LastAtLeast(pre, i);
    }
  }

  lemma LoggedGrows(t: Tracker, input: Input)
    ensures Told(t, input).logged == t.logged + (if input.LogLine? && !input.counted then 1 else 0)
  {
    hide Pruned, Add64, LastN, CountKey, LogKey;
  }

  lemma {:induction false} LoggedAtLeast(inputs: seq<Input>, i: nat)
    requires i < |inputs| && inputs[i].LogLine? && !inputs[i].counted
    ensures After(inputs[..i]).logged + 1 <= After(inputs).logged
  {
    var pre := inputs[..|inputs| - 1];
    LoggedGrows(After(pre), inputs[|inputs| - 1]);
    hide Told;
    if i < |pre| {
      LoggedAtLeast(pre, i);
      assert pre[..i] == inputs[..i];
    } else {
      assert inputs[..i] == pre;
    }
  }

  // While the counter never falls no key is raised a second time.
  lemma NeverFallsRaisesOnce(inputs: seq<Input>, key: string)
    requires NeverFalls(inputs)
    ensures RaisedOnce(inputs, key)
  {
    forall i, j | 0 <= i < j < |inputs| && RaisedAt(inputs, i, key) ensures !RaisedAt(inputs, j, key) {
      var pre := inputs[..j];
      assert pre[..i] == inputs[..i] && pre[i] == inputs[i];
      NeverFallsBefore(inputs, j);
      if inputs[i].Reading? {
        LastAtLeast(pre, i);
      } else {
        LoggedAtLeast(pre, i);
      }
      hide After, CountKey, LogKey;
      KeysOfPair(After(inputs[..i]), inputs[i], After(pre), inputs[j]);
    }
  }

  lemma KeysOfPair(t: Tracker, a: Input, u: Tracker, b: Input)
    requires RaisedKey(t, a).Some?
    requires a.Reading? ==> a.count <= u.last
    requires a.LogLine? ==> t.logged < u.logged
    ensures RaisedKey(u, b) != RaisedKey(t, a)
  {
    hide CountKey, LogKey;
    match (a, b) {
      case (Reading(c, _, _), Reading(d, _, _)) => KeysDiffer(c, d);
      case (Reading(c, _, _), LogLine(_, _, _)) => KeysDiffer(c, u.logged + 1);
      case (LogLine(_, _, _), Reading(d, _, _)) => KeysDiffer(d, t.logged + 1);
      case (LogLine(_, _, _), LogLine(_, _, _)) => KeysDiffer(t.logged + 1, u.logged + 1);
    }
  }

  // ----- attribution over whole runs -----

  // While no reading clashes: the lists of two kills name different victims, a kill is given at
  // most as many names as it killed, and each victim named is within the match of that very kill
  // with no kill closer.
  lemma AttributionIsSound(inputs: seq<Input>, i: nat, j: nat)
    requires NeverClashes(inputs) && i < |After(inputs).events| && j < |After(inputs).events|
    ensures var t := After(inputs);
            var mine := Attributed(t.victims, t.events, t.events[i].key, t.events[i].n);
            var theirs := Attributed(t.victims, t.events, t.events[j].key, t.events[j].n);
            && |mine| <= t.events[i].n
            && (forall x :: x in mine ==> Nearest(t.victims[x], t.events, i))
            && (forall x :: x in mine ==> Distance(t.victims[x], t.events[i]) < 10_000_000_000)
            && (i != j ==> forall x :: x in mine ==> x !in theirs)
  {
    DistinctUpTo(inputs, |inputs|);
    assert inputs[..|inputs|] == inputs;
    var t := After(inputs);
    hide Nearest, BelongsTo, After;
    OwnKeyOwnVictims(t.victims, t.events, i);
    OwnKeyOwnVictims(t.victims, t.events, j);
    if i != j {
      var mine := Attributed(t.victims, t.events, t.events[i].key, t.events[i].n);
      forall x | x in mine ensures x !in Attributed(t.victims, t.events, t.events[j].key, t.events[j].n) {
        NearestUnique(t.victims[x], t.events, i);
      }
    }
  }

  lemma {:induction false} EveryKillTookSomeone(inputs: seq<Input>)
    ensures forall e :: e in After(inputs).events ==> e.n >= 1
  {
    if inputs != [] {
      var pre, last := inputs[..|inputs| - 1], inputs[|inputs| - 1];
      EveryKillTookSomeone(pre);
      hide Told, CountKey, LogKey;
      forall e | e in After(inputs).events ensures e.n >= 1 {
        ToldEvents(After(pre), last, e);
      }
    }
  }

  // The first victim that belongs to a key is always named.
  lemma {:induction false} FirstIsNamed(victims: seq<Victim>, events: seq<Event>, key: string, limit: nat, x: nat)
    requires limit >= 1 && x < |victims| && BelongsTo(victims[x], events, key)
    requires forall y :: 0 <= y < x ==> !BelongsTo(victims[y], events, key)
    ensures x in Attributed(victims, events, key, limit)
  {
    hide BelongsTo;
    var n := |victims| - 1;
    if x < n {
      FirstIsNamed(victims[..n], events, key, limit, x);
    } else {
      NoneNamed(victims[..n], events, key, limit);
    }
  }

  lemma {:induction false} NoneNamed(victims: seq<Victim>, events: seq<Event>, key: string, limit: nat)
    requires forall y :: 0 <= y < |victims| ==> !BelongsTo(victims[y], events, key)
    ensures Attributed(victims, events, key, limit) == []
  {
    if victims != [] {
      NoneNamed(victims[..|victims| - 1], events, key, limit);
    }
  }

  ghost predicate Claimed(victims: seq<Victim>, events: seq<Event>, key: string) {
    exists x :: 0 <= x < |victims| && BelongsTo(victims[x], events, key)
  }

  lemma {:induction false} FirstClaimed(victims: seq<Victim>, events: seq<Event>, key: string) returns (x: nat)
    requires Claimed(victims, events, key)
    ensures x < |victims| && BelongsTo(victims[x], events, key)
    ensures forall y :: 0 <= y < x ==> !BelongsTo(victims[y], events, key)
  {
    hide BelongsTo;
    x :| x < |victims| && BelongsTo(victims[x], events, key);
    var pre := victims[..x];
    if Claimed(pre, events, key) {
      x := FirstClaimed(pre, events, key);
      assert forall y :: 0 <= y < x ==> pre[y] == victims[y];
    } else {
      assert forall y :: 0 <= y < x ==> pre[y] == victims[y];
    }
  }

  ghost predicate ShareVictim(t: Tracker, i: nat, j: nat)
    requires i < |t.events| && j < |t.events|
  {
    exists x :: x in Attributed(t.victims, t.events, t.events[i].key, t.events[i].n) &&
                x in Attributed(t.victims, t.events, t.events[j].key, t.events[j].n)
  }

  // In any run, falling counters included, two kills name a common victim exactly when they have one
  // key and some listed victim belongs to it.
  lemma ShareVictimIff(inputs: seq<Input>, i: nat, j: nat)
    requires i < |After(inputs).events| && j < |After(inputs).events|
    ensures var t := After(inputs);
            ShareVictim(t, i, j) <==>
            t.events[i].key == t.events[j].key && Claimed(t.victims, t.events, t.events[i].key)
  {
    EveryKillTookSomeone(inputs);
    var t := After(inputs);
    assert t.events[i] in t.events && t.events[j] in t.events;
    var a, b := t.events[i].key, t.events[j].key;
    hide After, BelongsTo;
    if x :| x in Attributed(t.victims, t.events, a, t.events[i].n) && x in Attributed(t.victims, t.events, b, t.events[j].n) {
      BelongsToOneKey(t.victims[x], t.events, a, b);
    }
    if a == b && Claimed(t.victims, t.events, a) {
      var x := FirstClaimed(t.victims, t.events, a);
      FirstIsNamed(t.victims, t.events, a, t.events[i].n, x);
      FirstIsNamed(t.victims, t.events, a, t.events[j].n, x);
    }
  }

  lemma BelongsToOneKey(v: Victim, events: seq<Event>, a: string, b: string)
    requires BelongsTo(v, events, a) && BelongsTo(v, events, b)
    ensures a == b
  {
    var i :| 0 <= i < |events| && Nearest(v, events, i) && events[i].key == a;
    NearestUnique(v, events, i);
  }

  lemma OwnKeyOwnVictims(victims: seq<Victim>, events: seq<Event>, i: nat)
    requires DistinctKeys(events) && i < |events|
    ensures forall x :: x in Attributed(victims, events, events[i].key, events[i].n) ==> x < |victims| && Nearest(victims[x], events, i)
  {
    forall x | x in Attributed(victims, events, events[i].key, events[i].n) ensures Nearest(victims[x], events, i) {
      var b :| 0 <= b < |events| && Nearest(victims[x], events, b) && events[b].key == events[i].key;
      assert b == i;
    }
  }

  const WIDE := 600 * MATCH

  // A counter that falls and climbs back.
  const FALLING: seq<Input> := [Reading(5, 0, WIDE), Reading(6, 1, WIDE), Reading(5, 2, WIDE), Reading(6, 3, WIDE)]

  // It puts two kills with one key on the list.
  lemma FallingCounter()
    ensures After(FALLING[..2]) == Tracker(true, 6, 1, [Event(1, 1, CountKey(6))], [], 0)
    ensures After(FALLING) == Tracker(true, 6, 2, [Event(1, 1, CountKey(6)), Event(3, 1, CountKey(6))], [], 0)
  {
    var e1, e2 := Event(1, 1, CountKey(6)), Event(3, 1, CountKey(6));
    var t1 := Tracker(true, 5, 0, [], [], 0);
    var t2 := Tracker(true, 6, 1, [e1], [], 0);
    var t3 := t2.(last := 5);
    var t4 := Tracker(true, 6, 2, [e1, e2], [], 0);
    assert Told(EMPTY, FALLING[0]) == t1 by { AllRecent([], 0, WIDE); }
    assert Told(t1, FALLING[1]) == t2 by { AllRecent([e1], 1, WIDE); }
    assert Told(t2, FALLING[2]) == t3 by { AllRecent([e1], 2, WIDE); }
    assert Told(t3, FALLING[3]) == t4 by { AllRecent([e1, e2], 3, WIDE); }
    assert FALLING[..2] == [FALLING[0], FALLING[1]];
    FourInputs(FALLING[0], FALLING[1], FALLING[2], FALLING[3]);
    hide *;
  }

  // And both claim the victim.
  lemma FallingCounterSharesVictim()
    ensures var t := After(FALLING + [LogLine(Victim(3, 42, "sh"), true, WIDE)]);
            && |t.events| == 2 && |t.victims| == 1
            && Attributed(t.victims, t.events, t.events[0].key, t.events[0].n) ==
               Attributed(t.victims, t.events, t.events[1].key, t.events[1].n) == [0]
  {
    var v := Victim(3, 42, "sh");
    FallingCounter();
    AfterOneMore(FALLING, LogLine(v, true, WIDE));
    hide After, CountKey;
    var t := After(FALLING + [LogLine(v, true, WIDE)]);
    assert Nearest(v, t.events, 1);
    OneVictim(v, t.events, CountKey(6));
  }

  lemma FourInputs(a: Input, b: Input, c: Input, d: Input)
    ensures After([a, b]) == Told(Told(EMPTY, a), b)
    ensures After([a, b, c, d]) == Told(Told(Told(Told(EMPTY, a), b), c), d)
  {
    hide Told;
    AfterNothing();
    AfterOneMore([], a);
    AfterOneMore([a], b);
    AfterOneMore([a, b], c);
    AfterOneMore([a, b, c], d);
    hide After;
    assert [] + [a] == [a] && [a] + [b] == [a, b] && [a, b] + [c] == [a, b, c] && [a, b, c] + [d] == [a, b, c, d];
  }

  lemma AfterNothing()
    ensures After([]) == EMPTY
  {}

  lemma {:induction false} AllRecent(events: seq<Event>, now: int, window: int)
    requires forall i :: 0 <= i < |events| ==> now - events[i].at < window
    ensures Recent(events, now, window) == events
  {
    if events != [] {
      var n := |events| - 1;
      var pre := events[..n];
      assert pre + [events[n]] == events;
      assert forall i :: 0 <= i < |pre| ==> pre[i] == events[i];
      AllRecent(pre, now, window);
    }
  }

  lemma OneVictim(v: Victim, events: seq<Event>, key: string)
    requires BelongsTo(v, events, key)
    ensures Attributed([v], events, key, 1) == [0]
  {
    assert [v][..0] == [];
  }
}
