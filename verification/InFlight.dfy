/**
The in-flight guards of internal/ui/behind.go, the dispatch and reply sides of Update in
internal/ui/model.go, and the life of the kernel-log descriptor in internal/ui/kernlog.go.

`Model` is the source's object, each method proved against a function of its fields. `Step`
interleaves those functions with the replies of the commands they dispatched, in any order.
*/
module InFlight {
  import opened Wrappers

  datatype Kind =
    | Procs | Conns | Sys | Latency | Cpu | Mem | Psi | Net | Disk | Power | Health | Detail | KernelLog

  // A dispatched fetch. A kernel-log read carries the descriptor it reads.
  datatype Cmd = Cmd(kind: Kind, fd: Option<nat>)

  const KMSG_MAX_ERRORS := 5

  // The fields of the model that the guards and the dispatch use.
  datatype Ui = Ui(
    inFlight: set<Kind>,
    skips: map<Kind, nat>,        // behindSkips
    paused: bool,
    tickCount: nat,
    procEvery: nat,
    slowEvery: nat,
    pingEnabled: bool,
    detail: Option<bool>,         // the overlay, and whether its process is gone
    kmsg: Option<nat>,            // the open descriptor
    errs: nat)                    // consecutive failed reads of it

  ghost predicate ValidUi(u: Ui) {
    u.procEvery > 0 && u.slowEvery > 0 && forall k: Kind :: k in u.skips
  }

  // ----- the guards -----

  // queue: dispatch unless the previous round is still out, which counts as falling behind.
  function Queued(u: Ui, k: Kind, cmd: Option<Cmd>): (Ui, seq<Cmd>)
    requires k in u.skips
  {
    if k in u.inFlight then (u.(skips := u.skips[k := u.skips[k] + 1]), [])
    else if cmd.None? then (u, [])
    else (u.(inFlight := u.inFlight + {k}, skips := u.skips[k := 0]), [cmd.value])
  }

  // queueUser: the same guard, without the lateness count.
  function UserQueued(u: Ui, k: Kind, cmd: Option<Cmd>): (Ui, seq<Cmd>) {
    if k in u.inFlight || cmd.None? then (u, []) else (u.(inFlight := u.inFlight + {k}), [cmd.value])
  }

  function Cleared(u: Ui, k: Kind): Ui {
    u.(inFlight := u.inFlight - {k})
  }

  function Fetch(k: Kind): (Kind, Option<Cmd>) {
    (k, Some(Cmd(k, None)))
  }

  // What a tick tries to dispatch, in order.
  function Plan(u: Ui): seq<(Kind, Option<Cmd>)>
    requires u.procEvery > 0 && u.slowEvery > 0
  {
    if u.paused then [Fetch(Mem)] + LogPlan(u)
    else
      FastPlan(u) +
      (if u.tickCount % u.procEvery == 0 then ProcPlan(u) else []) +
      (if u.tickCount % u.slowEvery == 0 then SLOW_PLAN else [])
  }

  function LogPlan(u: Ui): seq<(Kind, Option<Cmd>)> {
    if u.kmsg.Some? then [(KernelLog, Some(Cmd(KernelLog, u.kmsg)))] else []
  }

  function FastPlan(u: Ui): seq<(Kind, Option<Cmd>)> {
    [Fetch(Cpu), Fetch(Mem), Fetch(Psi), Fetch(Net)] + LogPlan(u)
  }

  function ProcPlan(u: Ui): seq<(Kind, Option<Cmd>)> {
    [Fetch(Procs), (Latency, if u.pingEnabled then Some(Cmd(Latency, None)) else None), Fetch(Conns)] +
    (if u.detail == Some(false) then [Fetch(Detail)] else [])
  }

  const SLOW_PLAN := [Fetch(Disk), Fetch(Power), Fetch(Sys), Fetch(Health)]

  function QueueAll(u: Ui, plan: seq<(Kind, Option<Cmd>)>): (r: (Ui, seq<Cmd>))
    requires forall i :: 0 <= i < |plan| ==> plan[i].0 in u.skips
    ensures r.0 == u.(inFlight := r.0.inFlight, skips := r.0.skips)
    ensures u.skips.Keys == r.0.skips.Keys
  {
    if plan == [] then (u, [])
    else
      var n := |plan| - 1;
      var (u1, before) := QueueAll(u, plan[..n]);
      assert plan[n].0 in u.skips.Keys;
      var (u2, more) := Queued(u1, plan[n].0, plan[n].1);
      (u2, before + more)
  }

  lemma QueueNothing(u: Ui)
    ensures QueueAll(u, []) == (u, [])
  {}

  function Ticked(u: Ui): Ui {
    if u.paused then u else u.(tickCount := u.tickCount + 1)
  }

  function AfterTick(u: Ui): (Ui, seq<Cmd>)
    requires ValidUi(u)
  {
    QueueAll(Ticked(u), Plan(Ticked(u)))
  }

  // A confirmed kill: refresh the list through the guard, the open overlay past it.
  function AfterKill(u: Ui): (Ui, seq<Cmd>) {
    var (u', cmds) := UserQueued(u, Procs, Some(Cmd(Procs, None)));
    (u', cmds + (if u.detail.Some? then [Cmd(Detail, None)] else []))
  }

  // handleKmsg: the reply to a read. On the last tolerated failure the descriptor is closed;
  // closing when there is none is the nil dereference the flag reports.
  function AfterKmsg(u: Ui, failed: bool): (Ui, Option<nat>, bool) {
    var u1 := Cleared(u, KernelLog);
    if !failed then (u1.(errs := 0), None, false)
    else if u.errs + 1 >= KMSG_MAX_ERRORS then (u1.(errs := u.errs + 1, kmsg := None), u.kmsg, u.kmsg.None?)
    else (u1.(errs := u.errs + 1), None, false)
  }

  // ----- the code -----

  class Model {
    var inFlight: set<Kind>
    var behindSkips: map<Kind, nat>
    var behindAt: int
    var paused: bool
    var tickCount: nat
    const procEvery: nat
    const slowEvery: nat
    const pingEnabled: bool
    var detail: Option<bool>
    var kmsg: Option<nat>
    var errs: nat

    function View(): Ui
      reads this
    {
      Ui(inFlight, behindSkips, paused, tickCount, procEvery, slowEvery, pingEnabled, detail, kmsg, errs)
    }

    method Queue(cmds: seq<Cmd>, k: Kind, built: Option<Cmd>, now: int) returns (r: seq<Cmd>)
      requires k in behindSkips
      modifies `inFlight, `behindSkips, `behindAt
      ensures (View(), r) == (var (u, more) := Queued(old(View()), k, built); (u, cmds + more))
      ensures behindAt == if k in old(inFlight) then now else old(behindAt)
    {
      if k in inFlight {
        behindSkips := behindSkips[k := behindSkips[k] + 1];
        behindAt := now;
        assert cmds + [] == cmds;
        return cmds;
      }
      if built.None? {
        assert cmds + [] == cmds;
        return cmds;
      }
      inFlight := inFlight + {k};
      behindSkips := behindSkips[k := 0];
      return cmds + [built.value];
    }

    method QueueUser(k: Kind, built: Option<Cmd>) returns (r: seq<Cmd>)
      modifies `inFlight
      ensures (View(), r) == UserQueued(old(View()), k, built)
    {
      if k in inFlight || built.None? {
        return [];
      }
      inFlight := inFlight + {k};
      return [built.value];
    }

    method Done(k: Kind)
      modifies `inFlight
      ensures View() == Cleared(old(View()), k)
    {
      inFlight := inFlight - {k};
    }

    // One more guarded dispatch of a tick that has already tried those in `plan`.
    method QueueNext(cmds: seq<Cmd>, k: Kind, built: Option<Cmd>, now: int, ghost start: Ui, ghost plan: seq<(Kind, Option<Cmd>)>)
      returns (r: seq<Cmd>)
      requires ValidUi(start) && (View(), cmds) == QueueAll(start, plan)
      modifies `inFlight, `behindSkips, `behindAt
      ensures (View(), r) == QueueAll(start, plan + [(k, built)])
    {
      assert k in start.skips.Keys;
      assert (plan + [(k, built)])[..|plan|] == plan;
      r := Queue(cmds, k, built, now);
    }

    // The sampling half of the tick case of Update.
    method Tick(now: int) returns (cmds: seq<Cmd>)
      requires ValidUi(View())
      modifies `inFlight, `behindSkips, `behindAt, `tickCount
      ensures (View(), cmds) == AfterTick(old(View()))
    {
      ghost var start := Ticked(View());
      QueueNothing(start);
      hide QueueAll;
      ghost var plan: seq<(Kind, Option<Cmd>)> := [];
      cmds := [];
      if paused {
        cmds := QueueNext(cmds, Mem, Some(Cmd(Mem, None)), now, start, plan);
        plan := plan + [Fetch(Mem)];
        if kmsg.Some? {
          cmds := QueueNext(cmds, KernelLog, Some(Cmd(KernelLog, kmsg)), now, start, plan);
          plan := plan + [(KernelLog, Some(Cmd(KernelLog, kmsg)))];
        }
      } else {
        tickCount := tickCount + 1;
        cmds := FastTick(now, start);
        plan := FastPlan(start);
        if tickCount % procEvery == 0 {
          cmds := ProcTick(cmds, now, start, plan);
          plan := plan + ProcPlan(start);
        }
        if tickCount % slowEvery == 0 {
          cmds := SlowTick(cmds, now, start, plan);
          plan := plan + SLOW_PLAN;
        }
      }
      assert plan == Plan(start);
    }

    method FastTick(now: int, ghost start: Ui) returns (cmds: seq<Cmd>)
      requires ValidUi(start) && View() == start
      modifies `inFlight, `behindSkips, `behindAt
      ensures (View(), cmds) == QueueAll(start, FastPlan(start))
    {
      QueueNothing(start);
      hide QueueAll;
      ghost var plan: seq<(Kind, Option<Cmd>)> := [];
      cmds := QueueNext([], Cpu, Some(Cmd(Cpu, None)), now, start, plan);
      plan := plan + [Fetch(Cpu)];
      cmds := QueueNext(cmds, Mem, Some(Cmd(Mem, None)), now, start, plan);
      plan := plan + [Fetch(Mem)];
      cmds := QueueNext(cmds, Psi, Some(Cmd(Psi, None)), now, start, plan);
      plan := plan + [Fetch(Psi)];
      cmds := QueueNext(cmds, Net, Some(Cmd(Net, None)), now, start, plan);
      plan := plan + [Fetch(Net)];
      if kmsg.Some? {
        cmds := QueueNext(cmds, KernelLog, Some(Cmd(KernelLog, kmsg)), now, start, plan);
        plan := plan + [(KernelLog, Some(Cmd(KernelLog, kmsg)))];
      }
      assert plan == FastPlan(start);
    }

    method ProcTick(cmds0: seq<Cmd>, now: int, ghost start: Ui, ghost plan0: seq<(Kind, Option<Cmd>)>) returns (cmds: seq<Cmd>)
      requires ValidUi(start) && (View(), cmds0) == QueueAll(start, plan0)
      modifies `inFlight, `behindSkips, `behindAt
      ensures (View(), cmds) == QueueAll(start, plan0 + ProcPlan(start))
    {
      hide QueueAll;
      ghost var plan := plan0;
      cmds := QueueNext(cmds0, Procs, Some(Cmd(Procs, None)), now, start, plan);
      plan := plan + [Fetch(Procs)];
      var ping := if pingEnabled then Some(Cmd(Latency, None)) else None;
      cmds := QueueNext(cmds, Latency, ping, now, start, plan);
      plan := plan + [(Latency, ping)];
      cmds := QueueNext(cmds, Conns, Some(Cmd(Conns, None)), now, start, plan);
      plan := plan + [Fetch(Conns)];
      if detail == Some(false) {
        cmds := QueueNext(cmds, Detail, Some(Cmd(Detail, None)), now, start, plan);
        plan := plan + [Fetch(Detail)];
      }
      assert plan == plan0 + ProcPlan(start);
    }

    method SlowTick(cmds0: seq<Cmd>, now: int, ghost start: Ui, ghost plan0: seq<(Kind, Option<Cmd>)>) returns (cmds: seq<Cmd>)
      requires ValidUi(start) && (View(), cmds0) == QueueAll(start, plan0)
      modifies `inFlight, `behindSkips, `behindAt
      ensures (View(), cmds) == QueueAll(start, plan0 + SLOW_PLAN)
    {
      hide QueueAll;
      ghost var plan := plan0;
      cmds := QueueNext(cmds0, Disk, Some(Cmd(Disk, None)), now, start, plan);
      plan := plan + [Fetch(Disk)];
      cmds := QueueNext(cmds, Power, Some(Cmd(Power, None)), now, start, plan);
      plan := plan + [Fetch(Power)];
      cmds := QueueNext(cmds, Sys, Some(Cmd(Sys, None)), now, start, plan);
      plan := plan + [Fetch(Sys)];
      cmds := QueueNext(cmds, Health, Some(Cmd(Health, None)), now, start, plan);
      plan := plan + [Fetch(Health)];
      assert plan == plan0 + SLOW_PLAN;
    }

    method HandleKmsg(failed: bool) returns (closed: Option<nat>)
      requires failed && errs + 1 >= KMSG_MAX_ERRORS ==> kmsg.Some?
      modifies `inFlight, `errs, `kmsg
      ensures (View(), closed, false) == AfterKmsg(old(View()), failed)
    {
      Done(KernelLog);
      if !failed {
        errs := 0;
        return None;
      }
      errs := errs + 1;
      if errs >= KMSG_MAX_ERRORS {
        closed := kmsg;
        kmsg := None;
      } else {
        closed := None;
      }
    }
  }

  // ----- every interleaving -----

  datatype State = State(
    ui: Ui,
    out: seq<Cmd>,          // dispatched and not yet answered
    closed: set<nat>,       // descriptors that have been closed
    replies: seq<bool>,     // the kernel-log replies so far: did the read fail?
    crashed: bool)          // a nil descriptor was closed

  datatype Msg =
    | TickMsg
    | Reply(i: nat, failed: bool)   // the answer, or the errMsg, of an outstanding command
    | TogglePause
    | KillConfirmed
    | BacklightKey                  // ends in queueUser(fetchSys)
    | OverlayKey                    // opening the overlay or acting in it: an unguarded detail fetch
    | CloseOverlay
    | OverlayGone

  predicate Enabled(s: State, m: Msg) {
    match m
    case Reply(i, _) => i < |s.out|
    case OverlayGone => s.ui.detail.Some?
    case _ => true
  }

  function Step(s: State, m: Msg): State
    requires ValidUi(s.ui) && Enabled(s, m)
  {
    match m
    case TickMsg =>
      var (u, cmds) := AfterTick(s.ui);
      s.(ui := u, out := s.out + cmds)
    case Reply(i, failed) =>
      var rest := s.out[..i] + s.out[i + 1..];
      if s.out[i].kind.KernelLog? then
        var (u, closed, crash) := AfterKmsg(s.ui, failed);
        s.(ui := u, out := rest, replies := s.replies + [failed], crashed := s.crashed || crash,
           closed := if closed.Some? then s.closed + {closed.value} else s.closed)
      else s.(ui := Cleared(s.ui, s.out[i].kind), out := rest)
    case TogglePause => s.(ui := s.ui.(paused := !s.ui.paused))
    case KillConfirmed =>
      var (u, cmds) := AfterKill(s.ui);
      s.(ui := u, out := s.out + cmds)
    case BacklightKey =>
      var (u, cmds) := UserQueued(s.ui, Sys, Some(Cmd(Sys, None)));
      s.(ui := u, out := s.out + cmds)
    case OverlayKey => s.(ui := s.ui.(detail := Some(false)), out := s.out + [Cmd(Detail, None)])
    case CloseOverlay => s.(ui := s.ui.(detail := None))
    case OverlayGone => s.(ui := s.ui.(detail := Some(true)))
  }

  // The states of a run.
  ghost predicate Run(states: seq<State>, msgs: seq<Msg>) {
    && |states| == |msgs| + 1
    && ValidUi(states[0].ui)
    && forall i :: 0 <= i < |msgs| ==> RunStep(states[i], msgs[i], states[i + 1])
  }

  ghost predicate RunStep(s: State, m: Msg, s': State) {
    ValidUi(s.ui) && Enabled(s, m) && s' == Step(s, m)
  }

  // ----- counting what is out -----

  function Count(cmds: seq<Cmd>, k: Kind): nat {
    if cmds == [] then 0
    else Count(cmds[..|cmds| - 1], k) + (if cmds[|cmds| - 1].kind == k then 1 else 0)
  }

  lemma {:induction false} CountAppend(a: seq<Cmd>, b: seq<Cmd>, k: Kind)
    ensures Count(a + b, k) == Count(a, k) + Count(b, k)
  {
    if b == [] {
      assert a + b == a;
    } else {
      assert (a + b)[..|a + b| - 1] == a + b[..|b| - 1];
      CountAppend(a, b[..|b| - 1], k);
    }
  }

  lemma CountOne(c: Cmd, k: Kind)
    ensures Count([c], k) == if c.kind == k then 1 else 0
  {
    assert [c][..0] == [];
  }

  lemma CountRemove(cmds: seq<Cmd>, i: nat, k: Kind)
    requires i < |cmds|
    ensures Count(cmds[..i] + cmds[i + 1..], k) == Count(cmds, k) - (if cmds[i].kind == k then 1 else 0)
  {
    assert cmds == cmds[..i] + ([cmds[i]] + cmds[i + 1..]);
    CountAppend(cmds[..i], [cmds[i]] + cmds[i + 1..], k);
    CountAppend([cmds[i]], cmds[i + 1..], k);
    CountAppend(cmds[..i], cmds[i + 1..], k);
    CountOne(cmds[i], k);
  }

  // ----- what a tick and a key dispatch, kind by kind -----

  // What a tick tries, given its count: while paused only the OOM count and the kernel log.
  predicate Tries(u: Ui, k: Kind)
    requires u.procEvery > 0 && u.slowEvery > 0
  {
    if u.paused then k.Mem? || (k.KernelLog? && u.kmsg.Some?)
    else match k
      case Cpu => true
      case Mem => true
      case Psi => true
      case Net => true
      case KernelLog => u.kmsg.Some?
      case Procs => u.tickCount % u.procEvery == 0
      case Conns => u.tickCount % u.procEvery == 0
      case Latency => u.tickCount % u.procEvery == 0
      case Detail => u.tickCount % u.procEvery == 0 && u.detail == Some(false)
      case Disk => u.tickCount % u.slowEvery == 0
      case Power => u.tickCount % u.slowEvery == 0
      case Sys => u.tickCount % u.slowEvery == 0
      case Health => u.tickCount % u.slowEvery == 0
  }

  // The item of a plan for a kind.
  function PlanItem(plan: seq<(Kind, Option<Cmd>)>, k: Kind): Option<Option<Cmd>> {
    if plan == [] then None
    else if plan[|plan| - 1].0 == k then Some(plan[|plan| - 1].1)
    else PlanItem(plan[..|plan| - 1], k)
  }

  lemma PlanItemLast(plan: seq<(Kind, Option<Cmd>)>, k: Kind)
    requires plan != []
    ensures PlanItem(plan, k) ==
            if plan[|plan| - 1].0 == k then Some(plan[|plan| - 1].1) else PlanItem(plan[..|plan| - 1], k)
  {}

  lemma {:induction false} PlanItemConcat(a: seq<(Kind, Option<Cmd>)>, b: seq<(Kind, Option<Cmd>)>, k: Kind)
    ensures PlanItem(a + b, k) == if PlanItem(b, k).Some? then PlanItem(b, k) else PlanItem(a, k)
  {
    if b == [] {
      assert a + b == a;
    } else {
      assert (a + b)[..|a + b| - 1] == a + b[..|b| - 1];
      PlanItemConcat(a, b[..|b| - 1], k);
    }
  }

  lemma {:induction false} PlanItemAt(plan: seq<(Kind, Option<Cmd>)>, k: Kind)
    ensures PlanItem(plan, k).Some? <==> exists i :: 0 <= i < |plan| && plan[i].0 == k
  {
    if plan != [] {
      PlanItemAt(plan[..|plan| - 1], k);
    }
  }

  ghost predicate EachKindOnce(plan: seq<(Kind, Option<Cmd>)>) {
    forall i, j :: 0 <= i < j < |plan| ==> plan[i].0 != plan[j].0
  }

  lemma {:induction false} PlanItemIs(plan: seq<(Kind, Option<Cmd>)>, i: nat)
    requires EachKindOnce(plan) && i < |plan|
    ensures PlanItem(plan, plan[i].0) == Some(plan[i].1)
  {
    if i < |plan| - 1 {
      PlanItemIs(plan[..|plan| - 1], i);
    }
  }

  // What trying to dispatch one command does, and to all other kinds nothing.
  ghost predicate Tried(u: Ui, item: Option<Option<Cmd>>, k: Kind, v: Ui, cmds: seq<Cmd>)
    requires k in u.skips
  {
    var sends := item.Some? && item.value.Some?;
    && k in v.skips
    && (k in v.inFlight <==> k in u.inFlight || sends)
    && Count(cmds, k) == (if k !in u.inFlight && sends then 1 else 0)
    && v.skips[k] == if item.None? then u.skips[k]
                     else if k in u.inFlight then u.skips[k] + 1
                     else if sends then 0
                     else u.skips[k]
  }

  lemma CountNone(k: Kind)
    ensures Count([], k) == 0
  {}

  lemma QueuedTried(u: Ui, j: Kind, cmd: Option<Cmd>, k: Kind)
    requires j in u.skips && k in u.skips && (cmd.Some? ==> cmd.value.kind == j)
    ensures var (v, more) := Queued(u, j, cmd);
            Tried(u, if j == k then Some(cmd) else None, k, v, more)
  {
    hide Count;
    CountNone(k);
    if cmd.Some? {
      CountOne(cmd.value, k);
    }
  }

  lemma TriedThen(u: Ui, first: Option<Option<Cmd>>, v: Ui, cmds: seq<Cmd>, second: Option<Option<Cmd>>, w: Ui, more: seq<Cmd>, k: Kind)
    requires k in u.skips && k in v.skips && (first.None? || second.None?)
    requires Tried(u, first, k, v, cmds) && Tried(v, second, k, w, more)
    ensures Tried(u, if second.Some? then second else first, k, w, cmds + more)
  {
    CountAppend(cmds, more, k);
    hide Count;
  }

  lemma {:induction false} QueueAllTried(u: Ui, plan: seq<(Kind, Option<Cmd>)>, k: Kind)
    requires ValidPlan(u, plan) && EachKindOnce(plan) && k in u.skips
    ensures var (v, cmds) := QueueAll(u, plan); Tried(u, PlanItem(plan, k), k, v, cmds)
  {
    if plan != [] {
      var n := |plan| - 1;
      var pre, last := plan[..n], plan[n];
      QueueAllTried(u, pre, k);
      PlanItemAt(pre, k);
      var (v, cmds) := QueueAll(u, pre);
      assert last.0 in v.skips.Keys && k in v.skips.Keys;
      var (w, more) := Queued(v, last.0, last.1);
      assert QueueAll(u, plan) == (w, cmds + more);
      var item := if last.0 == k then Some(last.1) else None;
      PlanItemLast(plan, k);
      hide QueueAll, Queued, PlanItem, Tried;
      QueuedTried(v, last.0, last.1, k);
      TriedThen(u, PlanItem(pre, k), v, cmds, item, w, more, k);
    }
  }

  lemma PlanKinds(u: Ui)
    requires u.procEvery > 0 && u.slowEvery > 0
    ensures EachKindOnce(Plan(u))
  {
    PartsAreApart(u);
    var a := FastPlan(u);
    var b := if u.tickCount % u.procEvery == 0 then ProcPlan(u) else [];
    var c := if u.tickCount % u.slowEvery == 0 then SLOW_PLAN else [];
    hide FastPlan, ProcPlan;
    OnceConcat(a, b, 0, 1);
    OnceConcat(a + b, c, 1, 2);
  }

  // The beat a kind belongs to.
  function Beat(k: Kind): nat {
    match k
    case Cpu => 0
    case Mem => 0
    case Psi => 0
    case Net => 0
    case KernelLog => 0
    case Procs => 1
    case Conns => 1
    case Latency => 1
    case Detail => 1
    case _ => 2
  }

  ghost predicate OnBeats(plan: seq<(Kind, Option<Cmd>)>, lo: nat, hi: nat) {
    forall i :: 0 <= i < |plan| ==> lo <= Beat(plan[i].0) <= hi
  }

  lemma PartsAreApart(u: Ui)
    ensures EachKindOnce(FastPlan(u)) && OnBeats(FastPlan(u), 0, 0)
    ensures EachKindOnce(ProcPlan(u)) && OnBeats(ProcPlan(u), 1, 1)
    ensures EachKindOnce(SLOW_PLAN) && OnBeats(SLOW_PLAN, 2, 2)
    ensures EachKindOnce([Fetch(Mem)] + LogPlan(u))
  {}

  lemma OnceConcat(a: seq<(Kind, Option<Cmd>)>, b: seq<(Kind, Option<Cmd>)>, hi: nat, beat: nat)
    requires EachKindOnce(a) && EachKindOnce(b) && OnBeats(a, 0, hi) && OnBeats(b, beat, beat) && hi < beat
    ensures EachKindOnce(a + b) && OnBeats(a + b, 0, beat)
  {
    hide Beat;
    forall i, j | 0 <= i < j < |a + b| ensures (a + b)[i].0 != (a + b)[j].0 {
      assert (a + b)[i] == if i < |a| then a[i] else b[i - |a|];
      assert (a + b)[j] == if j < |a| then a[j] else b[j - |a|];
    }
  }

  lemma FastItems(u: Ui, k: Kind)
    ensures PlanItem(FastPlan(u), k) ==
            if k.Cpu? || k.Mem? || k.Psi? || k.Net? || (k.KernelLog? && u.kmsg.Some?) then Some(Some(CmdFor(u, k))) else None
  {
    PartsAreApart(u);
    hide PlanItem, EachKindOnce, OnBeats;
    PlanItemAt(FastPlan(u), k);
    if k.Cpu? || k.Mem? || k.Psi? || k.Net? || (k.KernelLog? && u.kmsg.Some?) {
      var i := if k.Cpu? then 0 else if k.Mem? then 1 else if k.Psi? then 2 else if k.Net? then 3 else 4;
      assert FastPlan(u)[i] == (k, Some(CmdFor(u, k)));
      PlanItemIs(FastPlan(u), i);
    }
  }

  lemma LogItems(u: Ui, k: Kind)
    ensures PlanItem(LogPlan(u), k) == if k.KernelLog? && u.kmsg.Some? then Some(Some(CmdFor(u, k))) else None
  {
    if u.kmsg.Some? {
      assert LogPlan(u)[..0] == [];
    }
  }

  lemma ProcItems(u: Ui, k: Kind)
    ensures PlanItem(ProcPlan(u), k) ==
            if k.Procs? || k.Conns? || k.Latency? || (k.Detail? && u.detail == Some(false)) then Some(Fetched(u, k)) else None
  {
    PartsAreApart(u);
    hide PlanItem, EachKindOnce, OnBeats;
    PlanItemAt(ProcPlan(u), k);
    if k.Procs? || k.Conns? || k.Latency? || (k.Detail? && u.detail == Some(false)) {
      var i := if k.Procs? then 0 else if k.Latency? then 1 else if k.Conns? then 2 else 3;
      assert ProcPlan(u)[i] == (k, Fetched(u, k));
      PlanItemIs(ProcPlan(u), i);
    }
  }

  lemma SlowItems(u: Ui, k: Kind)
    ensures PlanItem(SLOW_PLAN, k) == if k.Disk? || k.Power? || k.Sys? || k.Health? then Some(Some(CmdFor(u, k))) else None
  {
    PartsAreApart(u);
    hide PlanItem, EachKindOnce, OnBeats;
    PlanItemAt(SLOW_PLAN, k);
    if k.Disk? || k.Power? || k.Sys? || k.Health? {
      var i := if k.Disk? then 0 else if k.Power? then 1 else if k.Sys? then 2 else 3;
      assert SLOW_PLAN[i] == (k, Some(CmdFor(u, k)));
      PlanItemIs(SLOW_PLAN, i);
    }
  }

  // The fetch a kind stands for; a ping only while pings are enabled.
  function Fetched(u: Ui, k: Kind): Option<Cmd> {
    if k.Latency? && !u.pingEnabled then None else Some(CmdFor(u, k))
  }

  lemma PlanItems(u: Ui, k: Kind)
    requires u.procEvery > 0 && u.slowEvery > 0
    ensures PlanItem(Plan(u), k) == if Tries(u, k) then Some(Fetched(u, k)) else None
  {
    FastItems(u, k);
    LogItems(u, k);
    ProcItems(u, k);
    SlowItems(u, k);
    MemItem(u, k);
    var b := if u.tickCount % u.procEvery == 0 then ProcPlan(u) else [];
    var c := if u.tickCount % u.slowEvery == 0 then SLOW_PLAN else [];
    PlanItemConcat([Fetch(Mem)], LogPlan(u), k);
    PlanItemConcat(FastPlan(u), b, k);
    PlanItemConcat(FastPlan(u) + b, c, k);
    hide FastPlan, ProcPlan, LogPlan;
  }

  lemma MemItem(u: Ui, k: Kind)
    ensures PlanItem([Fetch(Mem)], k) == if k.Mem? then Some(Some(CmdFor(u, k))) else None
  {
    assert [Fetch(Mem)][..0] == [];
  }

  // A tick counts unless paused, and for every kind: it sends one fetch exactly if it tries that kind,
  // the fetch is enabled and none is known to be out; a try that finds one out is one more skip, and a
  // fetch sent forgets them.
  lemma TickIs(u: Ui, k: Kind)
    requires ValidUi(u)
    ensures var (v, cmds) := AfterTick(u);
            var at := u.(tickCount := if u.paused then u.tickCount else u.tickCount + 1);
            && v == at.(inFlight := v.inFlight, skips := v.skips)
            && Tried(at, if Tries(at, k) then Some(Fetched(at, k)) else None, k, v, cmds)
  {
    var at := Ticked(u);
    PlanIsValid(at);
    PlanKinds(at);
    PlanItems(at, k);
    hide Plan, QueueAll, PlanItem, Tries, Tried;
    QueueAllTried(at, Plan(at), k);
  }

  lemma UserQueuedIs(u: Ui, out: seq<Cmd>, j: Kind, k: Kind)
    ensures var (v, cmds) := UserQueued(u, j, Some(Cmd(j, None)));
            && v == u.(inFlight := u.inFlight + {j})
            && Count(out + cmds, k) == Count(out, k) + (if k == j && k !in u.inFlight then 1 else 0)
  {
    hide Count;
    CountNone(k);
    CountOne(Cmd(j, None), k);
    CountAppend(out, UserQueued(u, j, Some(Cmd(j, None))).1, k);
    if j in u.inFlight {
      assert u.inFlight + {j} == u.inFlight;
    }
  }

  // A brightness key fetches the panel's reading unless that fetch is out, which is no lateness.
  lemma BrightnessKeyIs(s: State, k: Kind)
    requires ValidUi(s.ui)
    ensures var t := Step(s, BacklightKey);
            && t.ui == s.ui.(inFlight := s.ui.inFlight + {Sys})
            && Count(t.out, k) == Count(s.out, k) + (if k.Sys? && k !in s.ui.inFlight then 1 else 0)
  {
    UserQueuedIs(s.ui, s.out, Sys, k);
    hide Count, UserQueued;
  }

  lemma KillStep(s: State, u: Ui, cmds: seq<Cmd>, more: seq<Cmd>)
    requires ValidUi(s.ui) && (u, cmds) == UserQueued(s.ui, Procs, Some(Cmd(Procs, None)))
    requires more == if s.ui.detail.Some? then [Cmd(Detail, None)] else []
    ensures Step(s, KillConfirmed).ui == u && Step(s, KillConfirmed).out == (s.out + cmds) + more
  {
    hide UserQueued;
    assert s.out + (cmds + more) == (s.out + cmds) + more;
  }

  // A confirmed kill fetches the list in the same way, and the details of an open overlay in any case.
  lemma KillKeyIs(s: State, k: Kind)
    requires ValidUi(s.ui)
    ensures var t := Step(s, KillConfirmed);
            && t.ui == s.ui.(inFlight := s.ui.inFlight + {Procs})
            && Count(t.out, k) == Count(s.out, k) + (if k.Procs? && k !in s.ui.inFlight then 1 else 0)
                                                  + (if k.Detail? && s.ui.detail.Some? then 1 else 0)
  {
    hide Count, UserQueued;
    var (u, cmds) := UserQueued(s.ui, Procs, Some(Cmd(Procs, None)));
    var more := if s.ui.detail.Some? then [Cmd(Detail, None)] else [];
    KillStep(s, u, cmds, more);
    hide Step;
    UserQueuedIs(s.ui, s.out, Procs, k);
    CountAppend(s.out + cmds, more, k);
    CountNone(k);
    CountOne(Cmd(Detail, None), k);
  }

  // Outstanding commands that the guard does not know of.
  function Excess(u: Ui, out: seq<Cmd>, k: Kind): int {
    Count(out, k) - (if k in u.inFlight then 1 else 0)
  }

  lemma DispatchKeepsExcess(u: Ui, v: Ui, out: seq<Cmd>, c: Cmd, k: Kind)
    requires c.kind !in u.inFlight && v.inFlight == u.inFlight + {c.kind}
    ensures Excess(v, out + [c], k) == Excess(u, out, k)
  {
    hide Count;
    CountAppend(out, [c], k);
    CountOne(c, k);
  }

  lemma QueuedKeepsExcess(u: Ui, out: seq<Cmd>, j: Kind, cmd: Option<Cmd>, k: Kind)
    requires j in u.skips && (cmd.Some? ==> cmd.value.kind == j)
    ensures Excess(Queued(u, j, cmd).0, out + Queued(u, j, cmd).1, k) == Excess(u, out, k)
    ensures Excess(UserQueued(u, j, cmd).0, out + UserQueued(u, j, cmd).1, k) == Excess(u, out, k)
  {
    assert out + [] == out;
    if cmd.Some? && j !in u.inFlight {
      DispatchKeepsExcess(u, Queued(u, j, cmd).0, out, cmd.value, k);
      DispatchKeepsExcess(u, UserQueued(u, j, cmd).0, out, cmd.value, k);
      hide Excess;
    } else {
      hide Count;
    }
  }

  ghost predicate ValidPlan(u: Ui, plan: seq<(Kind, Option<Cmd>)>) {
    forall i :: 0 <= i < |plan| ==> plan[i].0 in u.skips && (plan[i].1.Some? ==> plan[i].1.value.kind == plan[i].0)
  }

  lemma {:induction false} QueueAllKeepsExcess(u: Ui, plan: seq<(Kind, Option<Cmd>)>, out: seq<Cmd>, k: Kind)
    requires ValidPlan(u, plan)
    ensures Excess(QueueAll(u, plan).0, out + QueueAll(u, plan).1, k) == Excess(u, out, k)
  {
    if plan == [] {
      assert out + [] == out;
    } else {
      var n := |plan| - 1;
      var pre, last := plan[..n], plan[n];
      QueueAllKeepsExcess(u, pre, out, k);
      var r := QueueAll(u, pre);
      assert last.0 in r.0.skips.Keys;
      var more := Queued(r.0, last.0, last.1);
      assert QueueAll(u, plan) == (more.0, r.1 + more.1);
      hide *;
      QueuedKeepsExcess(r.0, out + r.1, last.0, last.1, k);
      assert out + (r.1 + more.1) == (out + r.1) + more.1;
    }
  }

  lemma PlanIsValid(u: Ui)
    requires ValidUi(u)
    ensures ValidPlan(u, Plan(u))
  {}

  lemma TickKeepsExcess(s: State, k: Kind)
    requires ValidUi(s.ui)
    ensures Excess(Step(s, TickMsg).ui, Step(s, TickMsg).out, k) == Excess(s.ui, s.out, k)
    ensures ValidUi(Step(s, TickMsg).ui)
  {
    hide Plan, Excess;
    var u := Ticked(s.ui);
    PlanIsValid(u);
    QueueAllKeepsExcess(u, Plan(u), s.out, k);
    assert Excess(u, s.out, k) == Excess(s.ui, s.out, k) by {
      SameFlags(u, s.ui, s.out, k);
    }
    forall j: Kind ensures j in Step(s, TickMsg).ui.skips {
      assert j in s.ui.skips.Keys;
    }
  }

  lemma SameFlags(u: Ui, v: Ui, out: seq<Cmd>, k: Kind)
    requires u.inFlight == v.inFlight
    ensures Excess(u, out, k) == Excess(v, out, k)
  {}

  lemma KillKeepsExcess(s: State, k: Kind)
    requires ValidUi(s.ui) && !k.Detail?
    ensures Excess(Step(s, KillConfirmed).ui, Step(s, KillConfirmed).out, k) == Excess(s.ui, s.out, k)
  {
    var (u, cmds) := UserQueued(s.ui, Procs, Some(Cmd(Procs, None)));
    var more := if s.ui.detail.Some? then [Cmd(Detail, None)] else [];
    assert Step(s, KillConfirmed).out == (s.out + cmds) + more;
    hide Count;
    QueuedKeepsExcess(s.ui, s.out, Procs, Some(Cmd(Procs, None)), k);
    CountAppend(s.out + cmds, more, k);
    CountOne(Cmd(Detail, None), k);
  }

  lemma ReplyExcess(s: State, i: nat, failed: bool, k: Kind)
    requires ValidUi(s.ui) && i < |s.out|
    ensures var s' := Step(s, Reply(i, failed));
            Excess(s'.ui, s'.out, k) == Excess(s.ui, s.out, k) - (if s.out[i].kind == k && k !in s.ui.inFlight then 1 else 0)
  {
    CountRemove(s.out, i, k);
  }

  // A step never adds to the excess of a guarded kind; only a reply that lands while the guard is
  // down takes one away.
  lemma StepExcess(s: State, m: Msg, k: Kind)
    requires ValidUi(s.ui) && Enabled(s, m)
    ensures ValidUi(Step(s, m).ui)
    ensures !k.Detail? ==>
      Excess(Step(s, m).ui, Step(s, m).out, k) ==
      Excess(s.ui, s.out, k) - (if m.Reply? && s.out[m.i].kind == k && k !in s.ui.inFlight then 1 else 0)
  {
    match m {
      case TickMsg => TickKeepsExcess(s, k);
      case Reply(i, failed) => ReplyExcess(s, i, failed, k);
      case KillConfirmed => if !k.Detail? { KillKeepsExcess(s, k); }
      case BacklightKey => QueuedKeepsExcess(s.ui, s.out, Sys, Some(Cmd(Sys, None)), k);
      case OverlayKey =>
        CountAppend(s.out, [Cmd(Detail, None)], k);
        CountOne(Cmd(Detail, None), k);
      case _ =>
    }
  }

  // ----- at most one fetch of a kind -----

  ghost predicate Reachable(s: State, t: State, states: seq<State>, msgs: seq<Msg>) {
    Run(states, msgs) && states[0] == s && states[|states| - 1] == t
  }

  lemma {:induction false} ExcessNeverGrows(states: seq<State>, msgs: seq<Msg>, k: Kind, n: nat)
    requires Run(states, msgs) && n < |states| && !k.Detail?
    requires Excess(states[0].ui, states[0].out, k) >= 0
    ensures ValidUi(states[n].ui)
    ensures 0 <= Excess(states[n].ui, states[n].out, k) <= Excess(states[0].ui, states[0].out, k)
  {
    if n > 0 {
      ExcessNeverGrows(states, msgs, k, n - 1);
      var s, m := states[n - 1], msgs[n - 1];
      assert RunStep(s, m, states[n]);
      StepExcess(s, m, k);
      if m.Reply? {
        CountRemove(s.out, m.i, k);
      }
    }
  }

  // With nothing outstanding that the guard does not know of, there is never more than one command of
  // a guarded kind outstanding, and the guard is up exactly while there is one.
  lemma AtMostOneOutstanding(states: seq<State>, msgs: seq<Msg>, k: Kind, n: nat)
    requires Run(states, msgs) && n < |states| && !k.Detail?
    requires Excess(states[0].ui, states[0].out, k) == 0
    ensures Count(states[n].out, k) <= 1
    ensures k in states[n].ui.inFlight <==> Count(states[n].out, k) == 1
  {
    ExcessNeverGrows(states, msgs, k, n);
  }

  // From any start, the commands of a kind never number more than one above the initial excess.
  lemma OutstandingBound(states: seq<State>, msgs: seq<Msg>, k: Kind, n: nat)
    requires Run(states, msgs) && n < |states| && !k.Detail?
    requires Excess(states[0].ui, states[0].out, k) >= 0
    ensures Count(states[n].out, k) <= Excess(states[0].ui, states[0].out, k) + 1
  {
    ExcessNeverGrows(states, msgs, k, n);
  }

  lemma OutstandingAtEnd(s: State, t: State, states: seq<State>, msgs: seq<Msg>, k: Kind)
    requires Reachable(s, t, states, msgs) && !k.Detail? && Excess(s.ui, s.out, k) >= 0
    ensures Count(t.out, k) <= Excess(s.ui, s.out, k) + 1
  {
    OutstandingBound(states, msgs, k, |msgs|);
  }

  predicate EveryTick(k: Kind) {
    k.Cpu? || k.Mem? || k.Psi? || k.Net?
  }

  // The guarded fetches that some tick dispatches.
  predicate Dispatchable(u: Ui, k: Kind) {
    match k
    case Detail => false
    case Latency => u.pingEnabled
    case KernelLog => u.kmsg.Some?
    case _ => true
  }

  // How many ticks apart.
  function Every(u: Ui, k: Kind): nat {
    match k
    case Procs => u.procEvery
    case Conns => u.procEvery
    case Latency => u.procEvery
    case Disk => u.slowEvery
    case Power => u.slowEvery
    case Sys => u.slowEvery
    case Health => u.slowEvery
    case _ => 1
  }

  function CmdFor(u: Ui, k: Kind): Cmd {
    Cmd(k, if k.KernelLog? then u.kmsg else None)
  }

  lemma {:induction false} QueueAllRaises(u: Ui, plan: seq<(Kind, Option<Cmd>)>, i: nat)
    requires ValidPlan(u, plan) && i < |plan| && plan[i].1.Some?
    ensures plan[i].0 in QueueAll(u, plan).0.inFlight
  {
    var n := |plan| - 1;
    if i < n {
      QueueAllRaises(u, plan[..n], i);
    }
  }

  lemma DuePlan(u: Ui, k: Kind)
    requires ValidUi(u) && Dispatchable(u, k) && !u.paused && u.tickCount % Every(u, k) == 0
    ensures (k, Some(CmdFor(u, k))) in Plan(u)
  {
    var item := (k, Some(CmdFor(u, k)));
    if EveryTick(k) {
      assert FastPlan(u)[if k.Cpu? then 0 else if k.Mem? then 1 else if k.Psi? then 2 else 3] == item;
    } else if k.KernelLog? {
      assert FastPlan(u)[4] == item;
    } else if k.Procs? || k.Latency? || k.Conns? {
      assert ProcPlan(u)[if k.Procs? then 0 else if k.Latency? then 1 else 2] == item;
    } else {
      assert SLOW_PLAN[if k.Disk? then 0 else if k.Power? then 1 else if k.Sys? then 2 else 3] == item;
    }
  }

  lemma DueTickRaises(s: State, k: Kind)
    requires ValidUi(s.ui) && Dispatchable(s.ui, k) && !s.ui.paused && (s.ui.tickCount + 1) % Every(s.ui, k) == 0
    ensures k in Step(s, TickMsg).ui.inFlight
  {
    hide Plan, QueueAll;
    var u := Ticked(s.ui);
    PlanIsValid(u);
    DuePlan(u, k);
    var i :| 0 <= i < |Plan(u)| && Plan(u)[i] == (k, Some(CmdFor(u, k)));
    QueueAllRaises(u, Plan(u), i);
  }

  lemma TickRaises(s: State, k: Kind)
    requires ValidUi(s.ui) && EveryTick(k) && !s.ui.paused
    ensures k in Step(s, TickMsg).ui.inFlight
  {
    DueTickRaises(s, k);
  }

  lemma TickKeepsSettings(s: State, k: Kind)
    requires ValidUi(s.ui) && !s.ui.paused && Dispatchable(s.ui, k)
    ensures var u := Step(s, TickMsg).ui;
            Dispatchable(u, k) && !u.paused && Every(u, k) == Every(s.ui, k) && u.tickCount == s.ui.tickCount + 1
  {
    hide Plan, QueueAll;
  }

  lemma RunAtStart(s: State)
    requires ValidUi(s.ui)
    ensures Reachable(s, s, [s], [])
  {}

  lemma RunFromStep(s: State, m: Msg, t: State, states: seq<State>, msgs: seq<Msg>)
    requires ValidUi(s.ui) && Enabled(s, m) && Reachable(Step(s, m), t, states, msgs)
    ensures Reachable(s, t, [s] + states, [m] + msgs)
  {
    hide Step;
    var more, ms := [s] + states, [m] + msgs;
    forall i | 0 <= i < |ms| ensures RunStep(more[i], ms[i], more[i + 1]) {
      if i > 0 {
        assert RunStep(states[i - 1], msgs[i - 1], states[i]);
      }
    }
  }

  // How many more ticks until one dispatches k.
  function TicksToGo(u: Ui, k: Kind): nat
    requires u.procEvery > 0 && u.slowEvery > 0
  {
    if (u.tickCount + 1) % Every(u, k) == 0 then 0 else Every(u, k) - (u.tickCount + 1) % Every(u, k)
  }

  lemma OneTickCloser(n: nat, every: nat)
    requires every > 0 && n % every != 0
    ensures (n + 1) % every == if n % every + 1 == every then 0 else n % every + 1
  {
    var q, r := n / every, n % every;
    assert n + 1 == q * every + (r + 1);
    if r + 1 == every {
      assert n + 1 == (q + 1) * every;
      ModOfMultiple(q + 1, every, 0);
    } else {
      ModOfMultiple(q, every, r + 1);
    }
  }

  lemma ModOfMultiple(q: nat, every: nat, r: nat)
    requires r < every
    ensures (q * every + r) % every == r
  {
    var n := q * every + r;
    QuotientIsUnique(q, r, n / every, n % every, every);
  }

  lemma QuotientIsUnique(q: nat, r: nat, p: nat, o: nat, every: nat)
    requires r < every && o < every && q * every + r == p * every + o
    ensures q == p
  {
    LargerQuotient(q, p, every);
    LargerQuotient(p, q, every);
  }

  lemma LargerQuotient(q: nat, p: nat, every: nat)
    ensures q < p ==> q * every + every <= p * every
  {
    if q < p {
      assert p * every - (q + 1) * every == (p - q - 1) * every;
    }
  }

  // Ticking on from any running state dispatches k at last, and leaves its excess as it was.
  lemma {:induction false} TicksRaise(s: State, k: Kind) returns (t: State, states: seq<State>, msgs: seq<Msg>)
    requires ValidUi(s.ui) && Dispatchable(s.ui, k) && !s.ui.paused
    ensures Reachable(s, t, states, msgs) && k in t.ui.inFlight
    ensures Excess(t.ui, t.out, k) == Excess(s.ui, s.out, k)
    decreases TicksToGo(s.ui, k)
  {
    var s1 := Step(s, TickMsg);
    StepExcess(s, TickMsg, k);
    TickKeepsSettings(s, k);
    if (s.ui.tickCount + 1) % Every(s.ui, k) == 0 {
      DueTickRaises(s, k);
      RunAtStart(s1);
      t, states, msgs := s1, [s1], [];
    } else {
      OneTickCloser(s.ui.tickCount + 1, Every(s.ui, k));
      hide Step, Every, Dispatchable, Reachable, Excess;
      t, states, msgs := TicksRaise(s1, k);
    }
    hide Step, Reachable;
    RunFromStep(s, TickMsg, t, states, msgs);
    states, msgs := [s] + states, [TickMsg] + msgs;
  }

  // So a run can have one command of that kind more than the guard knows of, and one that it does.
  lemma ExcessPlusOne(s: State, k: Kind) returns (t: State, states: seq<State>, msgs: seq<Msg>)
    requires ValidUi(s.ui) && Dispatchable(s.ui, k)
    ensures Reachable(s, t, states, msgs) && Count(t.out, k) == Excess(s.ui, s.out, k) + 1
  {
    if s.ui.paused {
      var s1 := Step(s, TogglePause);
      StepExcess(s, TogglePause, k);
      hide Reachable;
      t, states, msgs := TicksRaise(s1, k);
      RunFromStep(s, TogglePause, t, states, msgs);
      states, msgs := [s] + states, [TogglePause] + msgs;
    } else {
      hide Reachable;
      t, states, msgs := TicksRaise(s, k);
    }
  }

  // At most one command of a kind is ever outstanding exactly when the excess is zero: anything more
  // and the next dispatch doubles up.
  lemma AtMostOneIff(s: State, k: Kind)
    requires ValidUi(s.ui) && Dispatchable(s.ui, k) && Excess(s.ui, s.out, k) >= 0
    ensures (forall t, states, msgs :: Reachable(s, t, states, msgs) ==> Count(t.out, k) <= 1) <==>
            Excess(s.ui, s.out, k) == 0
  {
    hide Count, Excess, Reachable;
    if Excess(s.ui, s.out, k) == 0 {
      forall t, states, msgs | Reachable(s, t, states, msgs) ensures Count(t.out, k) <= 1 {
        OutstandingAtEnd(s, t, states, msgs, k);
      }
    } else {
      var t, states, msgs := ExcessPlusOne(s, k);
      assert Reachable(s, t, states, msgs) && Count(t.out, k) > 1;
    }
  }

  // ----- startup -----

  // What Init dispatches, past the guards.
  function InitCmds(u: Ui): seq<Cmd> {
    [Cmd(Cpu, None), Cmd(Mem, None), Cmd(Procs, None), Cmd(Disk, None), Cmd(Net, None), Cmd(Conns, None),
     Cmd(Power, None), Cmd(Psi, None), Cmd(Sys, None), Cmd(Health, None)] +
    (if u.pingEnabled then [Cmd(Latency, None)] else [])
  }

  ghost predicate Started(s: State) {
    && ValidUi(s.ui) && s.ui.inFlight == {} && s.out == InitCmds(s.ui)
    && s.ui.errs == 0 && s.closed == {} && s.replies == [] && !s.crashed
  }

  predicate DispatchedByInit(u: Ui, k: Kind) {
    match k
    case Detail => false
    case KernelLog => false
    case Latency => u.pingEnabled
    case _ => true
  }

  lemma {:induction false} CountDistinct(cmds: seq<Cmd>, k: Kind)
    requires forall i, j :: 0 <= i < j < |cmds| ==> cmds[i].kind != cmds[j].kind
    ensures Count(cmds, k) == if exists i :: 0 <= i < |cmds| && cmds[i].kind == k then 1 else 0
  {
    if cmds != [] {
      CountDistinct(cmds[..|cmds| - 1], k);
    }
  }

  lemma StartupExcess(s: State, k: Kind)
    requires Started(s)
    ensures Excess(s.ui, s.out, k) == if DispatchedByInit(s.ui, k) then 1 else 0
  {
    hide Count;
    CountDistinct(s.out, k);
    InitCmdOf(s.ui, k);
  }

  lemma InitCmdOf(u: Ui, k: Kind)
    ensures (exists i :: 0 <= i < |InitCmds(u)| && InitCmds(u)[i].kind == k) <==> DispatchedByInit(u, k)
  {
    var cmds := InitCmds(u);
    assert forall i :: 0 <= i < |cmds| ==> DispatchedByInit(u, cmds[i].kind);
    if DispatchedByInit(u, k) {
      var i := match k {
        case Cpu => 0 case Mem => 1 case Procs => 2 case Disk => 3 case Net => 4 case Conns => 5
        case Power => 6 case Psi => 7 case Sys => 8 case Health => 9 case _ => 10
      };
      assert cmds[i].kind == k;
    }
  }

  // Init does not raise the guards, so the promise does not hold from startup: for every kind Init
  // dispatches some run has two outstanding, and for the fetches of every tick the first tick does it.
  lemma StartupDoubles(s: State, k: Kind) returns (t: State, states: seq<State>, msgs: seq<Msg>)
    requires Started(s) && DispatchedByInit(s.ui, k)
    ensures Reachable(s, t, states, msgs) && Count(t.out, k) == 2
    ensures EveryTick(k) && !s.ui.paused ==> Count(Step(s, TickMsg).out, k) == 2
  {
    hide Reachable, Step;
    StartupExcess(s, k);
    t, states, msgs := ExcessPlusOne(s, k);
    if EveryTick(k) && !s.ui.paused {
      StepExcess(s, TickMsg, k);
      TickRaises(s, k);
    }
  }

  // It is never worse than two, whatever the guarded kind.
  lemma StartupNeverTriples(s: State, k: Kind, t: State, states: seq<State>, msgs: seq<Msg>)
    requires Started(s) && !k.Detail? && Reachable(s, t, states, msgs)
    ensures Count(t.out, k) <= if DispatchedByInit(s.ui, k) then 2 else 1
  {
    hide Reachable;
    StartupExcess(s, k);
    OutstandingAtEnd(s, t, states, msgs, k);
  }

  // The overlay's fetch is not guarded: from any state, some run has any number more outstanding.
  lemma {:induction false} DetailIsUnguarded(s: State, n: nat) returns (t: State, states: seq<State>, msgs: seq<Msg>)
    requires ValidUi(s.ui)
    ensures Reachable(s, t, states, msgs) && Count(t.out, Detail) == Count(s.out, Detail) + n
    decreases n
  {
    if n == 0 {
      RunAtStart(s);
      t, states, msgs := s, [s], [];
    } else {
      var s1 := Step(s, OverlayKey);
      CountAppend(s.out, [Cmd(Detail, None)], Detail);
      CountOne(Cmd(Detail, None), Detail);
      hide Reachable, Count;
      t, states, msgs := DetailIsUnguarded(s1, n - 1);
      RunFromStep(s, OverlayKey, t, states, msgs);
      states, msgs := [s] + states, [OverlayKey] + msgs;
    }
  }

  // ----- the kernel-log descriptor -----

  function TrailingFailures(replies: seq<bool>): nat {
    if replies == [] || !replies[|replies| - 1] then 0 else TrailingFailures(replies[..|replies| - 1]) + 1
  }

  // Every outstanding kernel-log read is of the open descriptor.
  ghost predicate ReadsOpen(out: seq<Cmd>, kmsg: Option<nat>) {
    forall i :: 0 <= i < |out| && out[i].kind.KernelLog? ==> kmsg.Some? && out[i].fd == kmsg
  }

  ghost predicate LogInv(s: State, fd0: Option<nat>) {
    && ValidUi(s.ui)
    && Excess(s.ui, s.out, KernelLog) == 0
    && ReadsOpen(s.out, s.ui.kmsg)
    && s.ui.errs == TrailingFailures(s.replies)
    && !s.crashed
    && if fd0.None? then s.ui.kmsg.None? && s.closed == {} && s.replies == []
       else if s.ui.errs < KMSG_MAX_ERRORS then s.ui.kmsg == fd0 && s.closed == {}
       else s.ui.errs == KMSG_MAX_ERRORS && s.ui.kmsg.None? && s.closed == {fd0.value}
  }

  lemma {:induction false} QueueAllReadsOpen(u: Ui, plan: seq<(Kind, Option<Cmd>)>)
    requires ValidPlan(u, plan)
    requires forall i :: 0 <= i < |plan| && plan[i].1.Some? && plan[i].0.KernelLog? ==> u.kmsg.Some? && plan[i].1.value.fd == u.kmsg
    ensures ReadsOpen(QueueAll(u, plan).1, u.kmsg)
  {
    if plan != [] {
      QueueAllReadsOpen(u, plan[..|plan| - 1]);
    }
  }

  lemma {:induction false} CountZero(cmds: seq<Cmd>, k: Kind)
    requires Count(cmds, k) == 0
    ensures forall i :: 0 <= i < |cmds| ==> cmds[i].kind != k
  {
    if cmds != [] {
      CountZero(cmds[..|cmds| - 1], k);
    }
  }

  lemma ReadsOpenConcat(a: seq<Cmd>, b: seq<Cmd>, kmsg: Option<nat>)
    requires ReadsOpen(a, kmsg) && ReadsOpen(b, kmsg)
    ensures ReadsOpen(a + b, kmsg)
  {}

  lemma TickKeepsLogInv(s: State, fd0: Option<nat>)
    requires LogInv(s, fd0)
    ensures LogInv(Step(s, TickMsg), fd0)
  {
    var u := Ticked(s.ui);
    PlanIsValid(u);
    PlanReadsOpen(u);
    TickKeepsExcess(s, KernelLog);
    QueueAllReadsOpen(u, Plan(u));
    ReadsOpenConcat(s.out, QueueAll(u, Plan(u)).1, u.kmsg);
    hide Plan, QueueAll, Excess, TrailingFailures, ReadsOpen, ValidPlan;
  }

  lemma PlanReadsOpen(u: Ui)
    requires u.procEvery > 0 && u.slowEvery > 0
    ensures forall i :: 0 <= i < |Plan(u)| && Plan(u)[i].1.Some? && Plan(u)[i].0.KernelLog? ==>
              u.kmsg.Some? && Plan(u)[i].1.value.fd == u.kmsg
  {}

  lemma RemovedKeepsReadsOpen(out: seq<Cmd>, i: nat, kmsg: Option<nat>)
    requires ReadsOpen(out, kmsg) && i < |out|
    ensures ReadsOpen(out[..i] + out[i + 1..], kmsg)
  {}

  lemma NoReads(out: seq<Cmd>, kmsg: Option<nat>)
    requires Count(out, KernelLog) == 0
    ensures ReadsOpen(out, kmsg)
  {
    CountZero(out, KernelLog);
  }

  lemma OneMoreReply(replies: seq<bool>, failed: bool)
    ensures TrailingFailures(replies + [failed]) == if failed then TrailingFailures(replies) + 1 else 0
  {
    assert (replies + [failed])[..|replies|] == replies;
  }

  // A reply of another kind leaves the descriptor's side alone.
  lemma OtherReplyKeepsLogInv(s: State, i: nat, failed: bool, fd0: Option<nat>)
    requires LogInv(s, fd0) && i < |s.out| && !s.out[i].kind.KernelLog?
    ensures LogInv(Step(s, Reply(i, failed)), fd0)
  {
    hide Excess, ReadsOpen, TrailingFailures, Count;
    ReplyExcess(s, i, failed, KernelLog);
    RemovedKeepsReadsOpen(s.out, i, s.ui.kmsg);
  }

  // A read that answers was the only one out, and its descriptor was open.
  lemma AnsweredReadWasAlone(s: State, i: nat, failed: bool, fd0: Option<nat>)
    requires LogInv(s, fd0) && i < |s.out| && s.out[i].kind.KernelLog?
    ensures s.ui.kmsg.Some? && s.ui.errs < KMSG_MAX_ERRORS
    ensures Excess(Step(s, Reply(i, failed)).ui, Step(s, Reply(i, failed)).out, KernelLog) == 0
    ensures Count(s.out[..i] + s.out[i + 1..], KernelLog) == 0
  {
    hide AfterKmsg, AfterTick, TrailingFailures;
    ReplyExcess(s, i, failed, KernelLog);
    CountRemove(s.out, i, KernelLog);
  }

  lemma ReadReplyKeepsLogInv(s: State, i: nat, failed: bool, fd0: Option<nat>)
    requires LogInv(s, fd0) && i < |s.out| && s.out[i].kind.KernelLog?
    ensures LogInv(Step(s, Reply(i, failed)), fd0)
  {
    AnsweredReadWasAlone(s, i, failed, fd0);
    OneMoreReply(s.replies, failed);
    var s' := Step(s, Reply(i, failed));
    NoReads(s'.out, s'.ui.kmsg);
    hide Excess, ReadsOpen, TrailingFailures, Count;
  }

  lemma ReplyKeepsLogInv(s: State, i: nat, failed: bool, fd0: Option<nat>)
    requires LogInv(s, fd0) && i < |s.out|
    ensures LogInv(Step(s, Reply(i, failed)), fd0)
  {
    hide LogInv, Step;
    if s.out[i].kind.KernelLog? {
      ReadReplyKeepsLogInv(s, i, failed, fd0);
    } else {
      OtherReplyKeepsLogInv(s, i, failed, fd0);
    }
  }

  lemma OtherKeepsLogInv(s: State, m: Msg, fd0: Option<nat>)
    requires LogInv(s, fd0) && Enabled(s, m) && !m.TickMsg? && !m.Reply?
    ensures LogInv(Step(s, m), fd0)
  {
    hide Excess, AfterTick, AfterKmsg, TrailingFailures;
    StepExcess(s, m, KernelLog);
  }

  lemma StepKeepsLogInv(s: State, m: Msg, fd0: Option<nat>)
    requires LogInv(s, fd0) && Enabled(s, m)
    ensures LogInv(Step(s, m), fd0)
  {
    hide Excess, AfterTick, AfterKmsg, TrailingFailures, LogInv;
    match m {
      case TickMsg => TickKeepsLogInv(s, fd0);
      case Reply(i, failed) => ReplyKeepsLogInv(s, i, failed, fd0);
      case _ => OtherKeepsLogInv(s, m, fd0);
    }
  }

  lemma {:induction false} RunKeepsLogInv(states: seq<State>, msgs: seq<Msg>, n: nat)
    requires Run(states, msgs) && Started(states[0]) && n < |states|
    ensures LogInv(states[n], states[0].ui.kmsg)
  {
    var fd0 := states[0].ui.kmsg;
    if n == 0 {
      StartupExcess(states[0], KernelLog);
    } else {
      RunKeepsLogInv(states, msgs, n - 1);
      assert RunStep(states[n - 1], msgs[n - 1], states[n]);
      StepKeepsLogInv(states[n - 1], msgs[n - 1], fd0);
    }
  }

  // In every run from startup: at most one read is outstanding, and it is of a descriptor that is
  // open; the descriptor is closed exactly once five replies in a row have failed; and no nil
  // descriptor is ever closed.
  lemma DescriptorLifetime(states: seq<State>, msgs: seq<Msg>, n: nat, fd: nat)
    requires Run(states, msgs) && Started(states[0]) && n < |states|
    requires states[0].ui.kmsg == Some(fd)
    ensures var s := states[n];
            && Count(s.out, KernelLog) <= 1
            && (forall i :: 0 <= i < |s.out| && s.out[i].kind.KernelLog? ==> s.out[i].fd == Some(fd) && fd !in s.closed)
            && (fd in s.closed <==> TrailingFailures(s.replies) >= 5)
            && TrailingFailures(s.replies) <= 5
            && !s.crashed
  {
    RunKeepsLogInv(states, msgs, n);
  }

  // Closing happens in the very step that delivers the fifth failure, with no read left outstanding.
  lemma ClosedOnFifthFailure(states: seq<State>, msgs: seq<Msg>, n: nat, fd: nat)
    requires Run(states, msgs) && Started(states[0]) && n < |msgs|
    requires states[0].ui.kmsg == Some(fd)
    requires fd !in states[n].closed && fd in states[n + 1].closed
    ensures msgs[n].Reply? && msgs[n].failed && states[n].out[msgs[n].i].kind.KernelLog?
    ensures TrailingFailures(states[n].replies) == 4
    ensures Count(states[n + 1].out, KernelLog) == 0
  {
    RunKeepsLogInv(states, msgs, n);
    RunKeepsLogInv(states, msgs, n + 1);
    assert RunStep(states[n], msgs[n], states[n + 1]);
    StepExcess(states[n], msgs[n], KernelLog);
    if msgs[n].Reply? {
      CountRemove(states[n].out, msgs[n].i, KernelLog);
      var failed := msgs[n].failed;
      assert (states[n].replies + [failed])[..|states[n].replies|] == states[n].replies;
    }
  }
}
