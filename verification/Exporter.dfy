/**
The exporter's single-flight cache, internal/ui/exporter.go.

The three stretches of code that run under the mutex are methods of `Exporter`, each proved against
a function of the guarded fields. `Next` interleaves those functions freely: any number of scrapes,
the collector goroutines they launch, and the clock.
*/
module Exporter {
  import opened Wrappers

  const MIN_INTERVAL := 5_000_000_000  // exporterMinInterval, in nanoseconds
  const WAIT := 8_000_000_000          // exporterWait

  // The fields under the mutex. Collections and their done channels are numbered as they are
  // launched; the snapshot a collection publishes carries its number.
  datatype Core = Core(model: Option<nat>, lastAt: int, running: Option<nat>, launched: nat)

  datatype Entry = Cached(id: nat, at: int) | WaitFor(done: nat)

  datatype Outcome = Served(id: nat, at: int) | NoSnapshot

  predicate Fresh(c: Core, now: int) {
    c.model.Some? && now - c.lastAt < MIN_INTERVAL
  }

  // The first critical section of snapshot.
  function Enter(c: Core, now: int): (Core, Entry) {
    if Fresh(c, now) then (c, Cached(c.model.value, c.lastAt))
    else
      var c' := if c.running.None? then c.(running := Some(c.launched), launched := c.launched + 1) else c;
      (c', WaitFor(c'.running.value))
  }

  // The critical section of the collector goroutine.
  function Publish(c: Core, id: nat, now: int): Core {
    c.(model := Some(id), lastAt := now, running := None)
  }

  // The last critical section of snapshot.
  function Finish(c: Core): Outcome {
    if c.model.None? then NoSnapshot else Served(c.model.value, c.lastAt)
  }

  class Exporter {
    var model: Option<nat>
    var lastAt: int
    var running: Option<nat>
    var launched: nat

    function Fields(): Core
      reads this
    {
      Core(model, lastAt, running, launched)
    }

    constructor ()
      ensures Fields() == Core(None, 0, None, 0)
    {
      model, lastAt, running, launched := None, 0, None, 0;
    }

    method EnterSnapshot(now: int) returns (e: Entry)
      modifies this
      ensures (Fields(), e) == Enter(old(Fields()), now)
    {
      if model.Some? && now - lastAt < MIN_INTERVAL {
        return Cached(model.value, lastAt);
      }
      if running.None? {
        running := Some(launched);
        launched := launched + 1;
      }
      return WaitFor(running.value);
    }

    method PublishCollection(id: nat, now: int)
      modifies this
      ensures Fields() == Publish(old(Fields()), id, now)
    {
      model, lastAt, running := Some(id), now, None;
    }

    method FinishSnapshot() returns (o: Outcome)
      ensures o == Finish(Fields())
    {
      if model.None? {
        return NoSnapshot;
      }
      return Served(model.value, lastAt);
    }
  }

  // ----- every interleaving -----

  datatype Scrape =
    | Waiting(done: nat, since: int)          // in the select, since it arrived
    | Released(done: nat, since: int)         // the select took <-done
    | TimedOut(done: nat, since: int)         // the select took the timer
    | Cancelled                               // the request was cancelled
    | AnsweredFromCache(outcome: Outcome, when: int)
    | AnsweredAfterWait(waited: nat, since: int, released: bool, outcome: Outcome, when: int)

  datatype State = State(
    now: int,
    core: Core,
    starts: seq<int>,           // when each collection was launched
    published: map<nat, int>,   // when each collection published
    closed: set<nat>,           // the done channels that are closed
    scrapes: map<nat, Scrape>)

  datatype Step =
    | Clock(t: int)
    | Arrive(s: nat)
    | DoPublish(id: nat)
    | Close(id: nat)
    | Release(s: nat)
    | Timeout(s: nat)
    | Cancel(s: nat)
    | Return(s: nat)

  ghost predicate Init(s: State) {
    s.core == Core(None, 0, None, 0) && s.starts == [] && s.published == map[] && s.closed == {} && s.scrapes == map[]
  }

  predicate IsWaiting(s: State, i: nat) {
    i in s.scrapes && s.scrapes[i].Waiting?
  }

  ghost predicate Next(s: State, step: Step, s': State) {
    match step
    case Clock(t) => t >= s.now && s' == s.(now := t)
    case Arrive(i) =>
      var (core, e) := Enter(s.core, s.now);
      && i !in s.scrapes
      && s' == s.(core := core,
                  starts := if core.launched > s.core.launched then s.starts + [s.now] else s.starts,
                  scrapes := s.scrapes[i := if e.Cached? then AnsweredFromCache(Served(e.id, e.at), s.now) else Waiting(e.done, s.now)])
    case DoPublish(id) =>
      && id < s.core.launched && id !in s.published
      && s' == s.(core := Publish(s.core, id, s.now), published := s.published[id := s.now])
    case Close(id) => id in s.published && s' == s.(closed := s.closed + {id})
    case Release(i) =>
      && IsWaiting(s, i) && s.scrapes[i].done in s.closed
      && s' == s.(scrapes := s.scrapes[i := Released(s.scrapes[i].done, s.scrapes[i].since)])
    case Timeout(i) =>
      && IsWaiting(s, i) && s.now - s.scrapes[i].since >= WAIT
      && s' == s.(scrapes := s.scrapes[i := TimedOut(s.scrapes[i].done, s.scrapes[i].since)])
    case Cancel(i) => IsWaiting(s, i) && s' == s.(scrapes := s.scrapes[i := Cancelled])
    case Return(i) =>
      && i in s.scrapes && (s.scrapes[i].Released? || s.scrapes[i].TimedOut?)
      && s' == s.(scrapes := s.scrapes[i := AnsweredAfterWait(s.scrapes[i].done, s.scrapes[i].since, s.scrapes[i].Released?, Finish(s.core), s.now)])
  }

  // A run: states, and the step taken between each two.
  ghost predicate Run(states: seq<State>, steps: seq<Step>) {
    && |states| == |steps| + 1
    && Init(states[0])
    && forall i :: 0 <= i < |steps| ==> Next(states[i], steps[i], states[i + 1])
  }

  // ----- the invariant -----

  // `running` names the one unpublished collection, and is empty when there is none.
  ghost predicate SingleFlight(s: State) {
    forall id: nat :: id < s.core.launched && id !in s.published <==> s.core.running == Some(id)
  }

  ghost predicate Numbering(s: State) {
    && s.core.launched == |s.starts|
    && (forall id :: id in s.published ==> id < s.core.launched)
    && (s.core.running.Some? ==> s.core.running.value == s.core.launched - 1)
    && s.closed <= s.published.Keys
  }

  // The model is the collection published last.
  ghost predicate LatestModel(s: State) {
    && (s.core.model.None? <==> s.published == map[])
    && (s.core.model.Some? ==>
          && s.core.model.value in s.published
          && s.core.lastAt == s.published[s.core.model.value]
          && forall id :: id in s.published ==> id <= s.core.model.value)
  }

  // A collection starts at least the interval after the one before it published.
  ghost predicate Spaced(s: State) {
    forall i :: 0 <= i < |s.starts| ==> SpacedAt(s.starts, s.published, s.now, i)
  }

  ghost predicate SpacedAt(starts: seq<int>, published: map<nat, int>, now: int, i: nat)
    requires i < |starts|
  {
    && starts[i] <= now
    && (i in published ==> starts[i] <= published[i] <= now)
    && (i > 0 ==> i - 1 in published && published[i - 1] + MIN_INTERVAL <= starts[i])
  }

  ghost predicate GoodScrape(starts: seq<int>, published: map<nat, int>, now: int, scrape: Scrape) {
    match scrape
    case Waiting(done, since) =>
      done < |starts| && starts[done] <= since <= now && (done in published ==> since <= published[done])
    case Released(done, since) => done < |starts| && done in published && since <= published[done]
    case TimedOut(done, since) => done < |starts| && starts[done] <= since && since + WAIT <= now
    case Cancelled => true
    case AnsweredFromCache(o, when) =>
      o.Served? && o.id in published && o.at == published[o.id] && when - o.at < MIN_INTERVAL
    case AnsweredAfterWait(waited, since, released, o, when) =>
      && (released ==> o.Served? && o.id >= waited && since <= o.at)
      && (o.Served? ==> o.id in published && o.at == published[o.id] <= when)
  }

  ghost predicate GoodScrapes(s: State) {
    forall i :: i in s.scrapes ==> GoodScrape(s.starts, s.published, s.now, s.scrapes[i])
  }

  ghost predicate Inv(s: State) {
    SingleFlight(s) && Numbering(s) && LatestModel(s) && Spaced(s) && GoodScrapes(s)
  }

  lemma ClockKeepsInv(s: State, t: int, s': State)
    requires Inv(s) && Next(s, Clock(t), s')
    ensures Inv(s')
  {
    forall i | 0 <= i < |s'.starts| ensures SpacedAt(s'.starts, s'.published, s'.now, i) {
      assert SpacedAt(s.starts, s.published, s.now, i);
    }
    forall i | i in s'.scrapes ensures GoodScrape(s'.starts, s'.published, s'.now, s'.scrapes[i]) {
      assert GoodScrape(s.starts, s.published, s.now, s.scrapes[i]);
    }
  }

  lemma ArriveKeepsCore(s: State, i: nat, s': State)
    requires Inv(s) && Next(s, Arrive(i), s')
    ensures SingleFlight(s') && Numbering(s') && LatestModel(s')
  {
    forall j: nat ensures j < s'.core.launched && j !in s'.published <==> s'.core.running == Some(j) {
      assert j < s.core.launched && j !in s.published <==> s.core.running == Some(j);
    }
  }

  lemma ArriveKeepsSpacing(s: State, i: nat, s': State)
    requires Inv(s) && Next(s, Arrive(i), s')
    ensures Spaced(s')
  {
    forall j | 0 <= j < |s'.starts| ensures SpacedAt(s'.starts, s'.published, s'.now, j) {
      if j < |s.starts| {
        assert SpacedAt(s.starts, s.published, s.now, j);
      } else if j > 0 {
        assert j - 1 < s.core.launched && s.core.running != Some(j - 1);
        assert s.core.model == Some(j - 1);
      }
    }
  }

  lemma ArriveKeepsScrapes(s: State, i: nat, s': State)
    requires Inv(s) && Next(s, Arrive(i), s')
    ensures GoodScrapes(s')
  {
    ArriveKeepsCore(s, i, s');
    ArriveKeepsSpacing(s, i, s');
    forall j | j in s'.scrapes ensures GoodScrape(s'.starts, s'.published, s'.now, s'.scrapes[j]) {
      if j != i {
        assert GoodScrape(s.starts, s.published, s.now, s.scrapes[j]);
      } else if s'.scrapes[i].Waiting? {
        assert SpacedAt(s'.starts, s'.published, s'.now, s'.scrapes[i].done);
      }
    }
  }

  lemma PublishKeepsInv(s: State, id: nat, s': State)
    requires Inv(s) && Next(s, DoPublish(id), s')
    ensures Inv(s')
  {
    assert s.core.running == Some(id);
    forall j: nat ensures j < s'.core.launched && j !in s'.published <==> s'.core.running == Some(j) {
      assert j < s.core.launched && j !in s.published <==> s.core.running == Some(j);
    }
    forall i | i in s'.scrapes ensures GoodScrape(s'.starts, s'.published, s'.now, s'.scrapes[i]) {
      assert GoodScrape(s.starts, s.published, s.now, s.scrapes[i]);
    }
    forall i | 0 <= i < |s'.starts| ensures SpacedAt(s'.starts, s'.published, s'.now, i) {
      assert SpacedAt(s.starts, s.published, s.now, i);
    }
  }

  lemma ScrapeStepKeepsInv(s: State, step: Step, s': State)
    requires Inv(s) && Next(s, step, s')
    requires step.Release? || step.Timeout? || step.Cancel? || step.Return? || step.Close?
    ensures Inv(s')
  {
    if s.core.model.Some? {
      assert SpacedAt(s.starts, s.published, s.now, s.core.model.value);
    }
    forall i | i in s'.scrapes ensures GoodScrape(s'.starts, s'.published, s'.now, s'.scrapes[i]) {
      assert GoodScrape(s.starts, s.published, s.now, s.scrapes[i]);
      if step.Return? && s.scrapes[i].Released? {
        LaterPublishedLater(s, s.scrapes[i].done, s.core.model.value);
      }
    }
  }

  lemma StepKeepsInv(s: State, step: Step, s': State)
    requires Inv(s) && Next(s, step, s')
    ensures Inv(s')
  {
    hide *;
    match step {
      case Clock(t) => ClockKeepsInv(s, t, s');
      case Arrive(i) =>
        ArriveKeepsCore(s, i, s');
        ArriveKeepsSpacing(s, i, s');
        ArriveKeepsScrapes(s, i, s');
        InvParts(s');
      case DoPublish(id) => PublishKeepsInv(s, id, s');
      case _ => ScrapeStepKeepsInv(s, step, s');
    }
  }

  lemma InvParts(s: State)
    requires SingleFlight(s) && Numbering(s) && LatestModel(s) && Spaced(s) && GoodScrapes(s)
    ensures Inv(s)
  {}

  lemma {:induction false} RunKeepsInv(states: seq<State>, steps: seq<Step>, n: nat)
    requires Run(states, steps) && n < |states|
    ensures Inv(states[n])
  {
    if n > 0 {
      RunKeepsInv(states, steps, n - 1);
      assert Next(states[n - 1], steps[n - 1], states[n]);
      StepKeepsInv(states[n - 1], steps[n - 1], states[n]);
    }
  }

  // ----- what every run guarantees -----

  // At most one collection is ever in flight, and `running` is set exactly while one is.
  lemma AtMostOneCollection(states: seq<State>, steps: seq<Step>, n: nat, a: nat, b: nat)
    requires Run(states, steps) && n < |states|
    ensures var s := states[n];
            && (a < s.core.launched && a !in s.published && b < s.core.launched && b !in s.published ==> a == b)
            && (s.core.running == Some(a) <==> a < s.core.launched && a !in s.published)
  {
    RunKeepsInv(states, steps, n);
    var s := states[n];
    assert a < s.core.launched && a !in s.published <==> s.core.running == Some(a);
    assert b < s.core.launched && b !in s.published <==> s.core.running == Some(b);
  }

  // An arriving scrape is answered at once exactly if some collection was published within the
  // interval, and then with the latest; otherwise it waits for the collection that is running, which it
  // starts itself exactly if none is.
  lemma ArrivalIs(states: seq<State>, steps: seq<Step>, n: nat, i: nat)
    requires Run(states, steps) && n < |steps| && steps[n] == Arrive(i)
    ensures var s, s' := states[n], states[n + 1];
            && i in s'.scrapes && s'.published == s.published
            && if PublishedWithin(s, 5_000_000_000) then
                 && s'.scrapes[i].AnsweredFromCache? && s'.starts == s.starts && s'.scrapes[i].when == s.now
                 && s'.scrapes[i].outcome.Served?
                 && forall id :: id in s.published ==> id <= s'.scrapes[i].outcome.id
               else
                 && s'.starts != [] && s'.scrapes[i] == Waiting(|s'.starts| - 1, s.now) && |s'.starts| - 1 !in s.published
                 && s'.starts == if forall id: nat :: id < |s.starts| ==> id in s.published then s.starts + [s.now] else s.starts
  {
    RunKeepsInv(states, steps, n);
    var s := states[n];
    assert Next(s, steps[n], states[n + 1]);
    FreshIff(s);
    forall id: nat ensures id < |s.starts| && id !in s.published <==> s.core.running == Some(id) {
      assert id < s.core.launched && id !in s.published <==> s.core.running == Some(id);
    }
  }

  lemma FreshIff(s: State)
    requires Inv(s)
    ensures Fresh(s.core, s.now) <==> PublishedWithin(s, MIN_INTERVAL)
  {
    if PublishedWithin(s, MIN_INTERVAL) {
      var id :| id in s.published && s.now - s.published[id] < MIN_INTERVAL;
      LaterPublishedLater(s, id, s.core.model.value);
    } else if s.core.model.Some? {
      assert s.core.model.value in s.published;
    }
  }

  // A scrape released by its channel is served, with a snapshot at least as new as the collection
  // it waited on and published after it arrived; one answered from the cache gets a snapshot published
  // less than the interval ago.
  lemma ReleasedScrapeIsServed(states: seq<State>, steps: seq<Step>, n: nat, i: nat)
    requires Run(states, steps) && n < |states| && i in states[n].scrapes
    ensures match states[n].scrapes[i] {
      case AnsweredAfterWait(waited, since, released, o, when) =>
        && (released ==> o.Served? && o.id >= waited && since <= o.at)
        && (o.Served? ==> o.id in states[n].published && o.at == states[n].published[o.id] <= when)
      case AnsweredFromCache(o, when) =>
        o.Served? && o.id in states[n].published && o.at == states[n].published[o.id] && when - o.at < 5_000_000_000
      case _ => true
    }
  {
    RunKeepsInv(states, steps, n);
    assert GoodScrape(states[n].starts, states[n].published, states[n].now, states[n].scrapes[i]);
  }

  // ----- scrapes that time out -----

  // A collection only starts over a snapshot that has expired, and nothing renews it while it runs.
  lemma RunningMeansExpired(s: State)
    requires Inv(s) && s.core.running.Some?
    ensures !Fresh(s.core, s.now)
    ensures s.core.model == if s.core.launched == 1 then None else Some(s.core.launched - 2)
  {
    var d := s.core.launched - 1;
    assert s.core.running == Some(d);
    assert SpacedAt(s.starts, s.published, s.now, d);
    forall id: nat | id < d ensures id in s.published {
      assert id < s.core.launched && id !in s.published <==> s.core.running == Some(id);
    }
    if s.core.model.Some? {
      var id := s.core.model.value;
      assert d !in s.published by {
        assert d < s.core.launched && d !in s.published <==> s.core.running == Some(d);
      }
      assert id < d;
    }
  }

  // What a scrape that stopped waiting for collection d is told, in a state with the invariant.
  lemma AnswerFor(s: State, d: nat)
    requires Inv(s) && d < s.core.launched
    ensures var o := Finish(s.core);
            if d in s.published then o.Served? && o.id >= d
            else o == (if d == 0 then NoSnapshot else Served(d - 1, s.core.lastAt)) && !Fresh(s.core, s.now)
  {
    if d !in s.published {
      assert s.core.running == Some(d);
      RunningMeansExpired(s);
    }
  }

  // A timed-out scrape in a run gets less than it waited for exactly when that collection is still
  // running at the moment it returns. Then it gets none if it waited for the first, and otherwise the
  // collection before: that had expired when the new one started, and a whole wait has passed since.
  lemma TimedOutAnswerIff(states: seq<State>, steps: seq<Step>, n: nat, i: nat)
    requires Run(states, steps) && n < |steps| && steps[n] == Return(i)
    requires i in states[n].scrapes && states[n].scrapes[i].TimedOut?
    ensures i in states[n + 1].scrapes
    ensures var s, d := states[n], states[n].scrapes[i].done;
            var answer := states[n + 1].scrapes[i];
            && answer == AnsweredAfterWait(d, s.scrapes[i].since, false, answer.outcome, s.now)
            && (answer.outcome.NoSnapshot? || answer.outcome.id < d <==> d !in s.published)
            && (answer.outcome.NoSnapshot? <==> d == 0 && 0 !in s.published)
            && (d !in s.published && d > 0 ==>
                  && answer.outcome.Served? && answer.outcome.id == d - 1
                  && s.now - answer.outcome.at >= 13_000_000_000)
  {
    RunKeepsInv(states, steps, n);
    var s, d := states[n], states[n].scrapes[i].done;
    assert Next(s, steps[n], states[n + 1]);
    assert GoodScrape(s.starts, s.published, s.now, s.scrapes[i]);
    AnswerFor(s, d);
    assert SpacedAt(s.starts, s.published, s.now, d);
  }

  ghost predicate PublishedWithin(s: State, span: int) {
    exists id :: id in s.published && s.now - s.published[id] < span
  }

  // Any scrape that has waited returns readings no older than the interval exactly when some
  // collection was published within the interval before it returns.
  lemma RecentAnswerIff(states: seq<State>, steps: seq<Step>, n: nat, i: nat)
    requires Run(states, steps) && n < |steps| && steps[n] == Return(i)
    ensures i in states[n + 1].scrapes && states[n + 1].scrapes[i].AnsweredAfterWait?
    ensures var answer := states[n + 1].scrapes[i];
            answer.outcome.Served? && answer.when - answer.outcome.at < 5_000_000_000 <==>
            PublishedWithin(states[n], 5_000_000_000)
  {
    RunKeepsInv(states, steps, n);
    var s := states[n];
    assert Next(s, steps[n], states[n + 1]);
    if PublishedWithin(s, MIN_INTERVAL) {
      var id :| id in s.published && s.now - s.published[id] < MIN_INTERVAL;
      LaterPublishedLater(s, id, s.core.model.value);
    } else if s.core.model.Some? {
      assert s.core.model.value in s.published;
    }
  }

  // Collections publish in the order they were launched.
  lemma {:induction false} LaterPublishedLater(s: State, a: nat, b: nat)
    requires Inv(s) && a in s.published && b in s.published && a <= b
    ensures s.published[a] <= s.published[b]
    decreases b
  {
    if a < b {
      assert SpacedAt(s.starts, s.published, s.now, b);
      LaterPublishedLater(s, a, b - 1);
    }
  }

  // A scrape starts the first collection, which publishes; later another starts the second one.
  lemma SecondCollection(since: int) returns (states: seq<State>, steps: seq<Step>)
    requires since >= MIN_INTERVAL
    ensures Run(states, steps) && |steps| == 4
    ensures states[4] == State(since, Core(Some(0), 0, Some(1), 2), [0, since], map[0 := 0], {},
                               map[0 := Waiting(0, 0), 1 := Waiting(1, since)])
  {
    var s0 := State(0, Core(None, 0, None, 0), [], map[], {}, map[]);
    var s1 := s0.(core := Core(None, 0, Some(0), 1), starts := [0], scrapes := map[0 := Waiting(0, 0)]);
    var s2 := s1.(core := Core(Some(0), 0, None, 1), published := map[0 := 0]);
    var s3 := s2.(now := since);
    var s4 := s3.(core := Core(Some(0), 0, Some(1), 2), starts := [0, since], scrapes := s3.scrapes[1 := Waiting(1, since)]);
    states := [s0, s1, s2, s3, s4];
    steps := [Arrive(0), DoPublish(0), Clock(since), Arrive(1)];
    assert Next(s0, Arrive(0), s1);
    assert Next(s1, DoPublish(0), s2);
    assert Next(s2, Clock(since), s3);
    assert Next(s3, Arrive(1), s4);
    hide Next;
    forall i | 0 <= i < |steps| ensures Next(states[i], steps[i], states[i + 1]) {
      assert i in {0, 1, 2, 3};
    }
  }

  lemma RunGoesOn(states: seq<State>, steps: seq<Step>, step: Step, s': State)
    requires Run(states, steps) && Next(states[|steps|], step, s')
    ensures Run(states + [s'], steps + [step])
  {
    hide Next;
    var all, taken := states + [s'], steps + [step];
    forall i | 0 <= i < |taken| ensures Next(all[i], taken[i], all[i + 1]) {
      if i < |steps| {
        assert Next(states[i], steps[i], states[i + 1]);
      }
    }
  }

  // There is no bound on how old such an answer can be.
  lemma TimedOutAnswerOfAnyAge(age: int) returns (states: seq<State>, steps: seq<Step>)
    requires age >= MIN_INTERVAL + WAIT
    ensures |steps| == 7 && LateAnswer(states, steps, 6, 1, age)
  {
    states, steps := SecondCollection(MIN_INTERVAL);
    var s5 := states[4].(now := age);
    var s6 := s5.(scrapes := s5.scrapes[1 := TimedOut(1, MIN_INTERVAL)]);
    var s7 := s6.(scrapes := s6.scrapes[1 := AnsweredAfterWait(1, MIN_INTERVAL, false, Served(0, 0), age)]);
    assert Next(states[4], Clock(age), s5) && Next(s5, Timeout(1), s6) && Next(s6, Return(1), s7);
    hide Next, Run;
    RunGoesOn(states, steps, Clock(age), s5);
    RunGoesOn(states + [s5], steps + [Clock(age)], Timeout(1), s6);
    RunGoesOn(states + [s5] + [s6], steps + [Clock(age)] + [Timeout(1)], Return(1), s7);
    states, steps := states + [s5] + [s6] + [s7], steps + [Clock(age)] + [Timeout(1)] + [Return(1)];
  }

  // Scrape i returns in step n with readings of this age, the collection it waited for still running.
  ghost predicate LateAnswer(states: seq<State>, steps: seq<Step>, n: nat, i: nat, age: int) {
    && Run(states, steps) && n < |steps| && steps[n] == Return(i)
    && i in states[n].scrapes && states[n].scrapes[i].TimedOut? && states[n].scrapes[i].done !in states[n].published
    && i in states[n + 1].scrapes && states[n + 1].scrapes[i].AnsweredAfterWait?
    && states[n + 1].scrapes[i].outcome.Served?
    && states[n + 1].scrapes[i].when - states[n + 1].scrapes[i].outcome.at == age
  }

  // The ages that occur are exactly those from the interval and the wait together up.
  lemma LateAgesIff(age: int)
    ensures (exists states, steps, n, i :: LateAnswer(states, steps, n, i, age)) <==> age >= 13_000_000_000
  {
    if age >= MIN_INTERVAL + WAIT {
      var states, steps := TimedOutAnswerOfAnyAge(age);
    }
    if states, steps, n, i :| LateAnswer(states, steps, n, i, age) {
      TimedOutAnswerIff(states, steps, n, i);
    }
  }

  // Launches i and j of a run are at least j - i intervals apart.
  lemma {:induction false} LaunchesSpaced(s: State, i: nat, j: nat)
    requires Spaced(s) && i <= j < |s.starts|
    ensures s.starts[i] + (j - i) * 5_000_000_000 <= s.starts[j]
    decreases j
  {
    if i < j {
      LaunchesSpaced(s, i, j - 1);
      assert SpacedAt(s.starts, s.published, s.now, j) && SpacedAt(s.starts, s.published, s.now, j - 1);
    }
  }

  // A span of T nanoseconds sees at most floor(T / interval) + 1 launches, however hard it is scraped.
  lemma LaunchesInSpan(states: seq<State>, steps: seq<Step>, n: nat, from: int, span: nat)
    requires Run(states, steps) && n < |states|
    ensures var starts := states[n].starts;
            |set i: nat | i < |starts| && from <= starts[i] <= from + span| <= span / 5_000_000_000 + 1
  {
    RunKeepsInv(states, steps, n);
    var s := states[n];
    var seen := set i: nat | i < |s.starts| && from <= s.starts[i] <= from + span;
    if seen != {} {
      var lo := Least(seen);
      forall i | i in seen ensures lo <= i <= lo + span / MIN_INTERVAL {
        LaunchesSpaced(s, lo, i);
      }
      RangeSize(seen, lo, span / MIN_INTERVAL + 1);
    }
  }

  lemma Least(s: set<nat>) returns (least: nat)
    requires s != {}
    ensures least in s && forall i: nat :: i in s ==> least <= i
  {
    var any: nat :| any in s;
    least := any;
    var rest := s - {any};
    if rest != {} {
      var m := Least(rest);
      least := if m < any then m else any;
    }
    forall i: nat | i in s ensures least <= i {
      if i != any {
        assert i in rest;
      }
    }
  }

  lemma {:induction false} RangeSize(s: set<nat>, lo: nat, n: nat)
    requires forall i :: i in s ==> lo <= i < lo + n
    ensures |s| <= n
  {
    if n == 0 {
      if s != {} {
        var i := Least(s);
      }
    } else {
      RangeSize(s - {lo + n - 1}, lo, n - 1);
    }
  }
}
