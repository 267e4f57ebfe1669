/**
Signals and process details against PIDs that may be recycled at any moment: signalProc, checkStart and
GetProcDetail of internal/probe/procs.go.

`Kernel` is the process table. Between any two system calls the code calls `Interfere`, which stands
for whatever the rest of the machine does meanwhile; `EnvironmentEvolves` shows that every sequence
of exits and spawns is covered by what Interfere promises.
*/
module Signal {
  import opened Wrappers

  // A process, by the identity the code uses for it. No two processes share one.
  datatype Proc = Proc(pid: int, start: nat)

  datatype Errno = Nil | ErrProcGone | ErrOther

  // What pidfd_open does on this machine: works, is missing or filtered (ENOSYS, EPERM), or fails.
  datatype PidfdSupport = Supported | Unavailable | Broken

  datatype Delivery = Delivery(to: Proc, sig: int, pinned: bool)

  // ----- the process table -----

  predicate IsAlive(alive: map<int, nat>, p: Proc) {
    p.pid in alive && alive[p.pid] == p.start
  }

  // The table holds processes that were born, under positive PIDs.
  ghost predicate Consistent(alive: map<int, nat>, born: set<Proc>) {
    && (forall pid :: pid in alive ==> Proc(pid, alive[pid]) in born)
    && (forall p :: p in born ==> p.pid > 0)
  }

  // From one moment to a later one: processes are born, and the dead stay dead.
  ghost predicate Evolves(alive: map<int, nat>, born: set<Proc>, alive': map<int, nat>, born': set<Proc>) {
    && Consistent(alive', born') && born <= born'
    && forall p :: p in born && !IsAlive(alive, p) ==> !IsAlive(alive', p)
  }

  datatype Change = Exit(pid: int) | Spawn(p: Proc)

  // One change of the process table. A PID in use is not given out, and an identity never returns.
  function Apply(alive: map<int, nat>, born: set<Proc>, c: Change): (map<int, nat>, set<Proc>) {
    match c
    case Exit(pid) => (alive - {pid}, born)
    case Spawn(p) =>
      if p.pid > 0 && p.pid !in alive && p !in born then (alive[p.pid := p.start], born + {p}) else (alive, born)
  }

  function ApplyAll(alive: map<int, nat>, born: set<Proc>, cs: seq<Change>): (map<int, nat>, set<Proc>) {
    if cs == [] then (alive, born)
    else
      var (a, b) := ApplyAll(alive, born, cs[..|cs| - 1]);
      Apply(a, b, cs[|cs| - 1])
  }

  // Whatever exits and spawns happen between two system calls, and in whatever order, Interfere covers them.
  lemma {:induction false} EnvironmentEvolves(alive: map<int, nat>, born: set<Proc>, cs: seq<Change>)
    requires Consistent(alive, born)
    ensures var (a, b) := ApplyAll(alive, born, cs);
            Evolves(alive, born, a, b)
  {
    if cs != [] {
      EnvironmentEvolves(alive, born, cs[..|cs| - 1]);
    }
  }

  // What checkStart and kill answer on a given table.
  predicate CheckPasses(alive: map<int, nat>, pid: int, start: nat, readable: bool) {
    start == 0 || (IsAlive(alive, Proc(pid, start)) && readable)
  }

  predicate KillReaches(alive: map<int, nat>, pid: int, p: Proc, permitted: bool) {
    p.pid == pid && IsAlive(alive, p) && permitted
  }

  class Kernel {
    var alive: map<int, nat>          // the start time of the process at each PID, zombies included
    ghost var born: set<Proc>         // every process there has been
    var delivered: seq<Delivery>      // every signal sent

    ghost predicate Valid()
      reads this
    {
      Consistent(alive, born)
    }

    // The rest of the machine runs. Nothing more than the promise is known about what it did.
    method Interfere()
      requires Valid()
      modifies `alive, `born
      ensures Valid() && Evolves(old(alive), old(born), alive, born)
    {
    }

    method PidfdOpen(pid: int, support: PidfdSupport) returns (e: Errno, fd: Proc)
      ensures e == Nil <==> support.Supported? && pid in alive
      ensures e == Nil ==> fd == Proc(pid, alive[pid])
      ensures e == ErrProcGone <==> support.Supported? && pid !in alive
    {
      if !support.Supported? {
        return ErrOther, Proc(pid, 0);
      }
      if pid !in alive {
        return ErrProcGone, Proc(pid, 0);
      }
      return Nil, Proc(pid, alive[pid]);
    }

    // Reading field 22 of /proc/<pid>/stat.
    method ProcStartTime(pid: int, readable: bool) returns (start: nat, e: Errno)
      ensures e == Nil <==> pid in alive && readable
      ensures e == Nil ==> start == alive[pid]
      ensures e == ErrProcGone <==> pid !in alive
    {
      if pid !in alive {
        return 0, ErrProcGone;
      }
      if !readable {
        return 0, ErrOther;
      }
      return alive[pid], Nil;
    }

    method PidfdSend(fd: Proc, sig: int, permitted: bool) returns (e: Errno)
      modifies `delivered
      ensures e == Nil <==> IsAlive(alive, fd) && permitted
      ensures e == ErrProcGone <==> !IsAlive(alive, fd)
      ensures delivered == old(delivered) + (if e == Nil then [Delivery(fd, sig, true)] else [])
    {
      if !IsAlive(alive, fd) {
        return ErrProcGone;
      }
      if !permitted {
        return ErrOther;
      }
      delivered := delivered + [Delivery(fd, sig, true)];
      return Nil;
    }

    method Kill(pid: int, sig: int, permitted: bool) returns (e: Errno)
      modifies `delivered
      ensures e == Nil <==> pid in alive && permitted
      ensures e != ErrProcGone
      ensures if e != Nil then delivered == old(delivered)
              else KillReaches(alive, pid, Proc(pid, alive[pid]), permitted) &&
                   delivered == old(delivered) + [Delivery(Proc(pid, alive[pid]), sig, false)]
    {
      if pid !in alive || !permitted {
        return ErrOther;
      }
      delivered := delivered + [Delivery(Proc(pid, alive[pid]), sig, false)];
      return Nil;
    }

    // checkStart: start == 0 means the caller never learned it.
    method CheckStart(pid: int, start: nat, readable: bool) returns (e: Errno)
      ensures e == Nil <==> CheckPasses(alive, pid, start, readable)
      ensures start != 0 && e == ErrProcGone ==> !IsAlive(alive, Proc(pid, start))
      ensures start != 0 && readable && e != Nil ==> e == ErrProcGone
    {
      if start == 0 {
        return Nil;
      }
      var got, err := ProcStartTime(pid, readable);
      if err != Nil {
        return err;
      }
      if got != start {
        return ErrProcGone;
      }
      return Nil;
    }

    // signalProc. `picked` is the process the user chose: it was alive when the caller learned
    // (pid, start), and start is its start time unless that was not known.
    method SignalProc(pid: int, start: nat, sig: int, support: PidfdSupport, readable: bool, permitted: bool, ghost picked: Proc)
      returns (e: Errno)
      requires Valid()
      requires pid > 0 ==> picked in born && picked.pid == pid && (start != 0 ==> picked.start == start)
      modifies this
      ensures Valid() && Evolves(old(alive), old(born), alive, born)
      // At most one signal is sent, and none unless the call succeeds.
      ensures e != Nil ==> delivered == old(delivered)
      ensures e == Nil ==> |delivered| == |old(delivered)| + 1 && delivered[..|old(delivered)|] == old(delivered)
      // Through a pidfd it reaches the picked process and no other; only without one may it miss.
      ensures e == Nil ==> delivered[|old(delivered)|].to.pid == pid && delivered[|old(delivered)|].sig == sig
      ensures e == Nil && support.Supported? && start != 0 ==> delivered[|old(delivered)|] == Delivery(picked, sig, true)
      ensures e == Nil ==> (delivered[|old(delivered)|].pinned <==> support.Supported?)
      // The plain kill reaches it exactly when it is still there at the moment of the kill.
      ensures e == Nil && !support.Supported? && start != 0 ==>
                (delivered[|old(delivered)|].to == picked <==> IsAlive(alive, picked))
      ensures e == Nil && start != 0 ==> IsAlive(old(alive), picked)
      // A process that lives through the call is signalled, wherever the caller may signal it at all.
      ensures pid > 0 && !support.Broken? && permitted && (readable || start == 0) && IsAlive(alive, picked) ==> e == Nil
      ensures support.Broken? || !permitted || (start != 0 && !readable) ==> e != Nil
      // One that was gone when the call began is reported as gone.
      ensures pid > 0 && !support.Broken? && start != 0 && readable && !IsAlive(old(alive), picked) ==> e == ErrProcGone
      // "Gone" is only said of a process that is gone.
      ensures e == ErrProcGone && start != 0 && pid > 0 ==> !IsAlive(alive, picked)
      ensures pid <= 0 ==> e == ErrProcGone
    {
      if pid <= 0 {
        EvolvesReflexive(alive, born);
        return ErrProcGone;
      }
      Interfere();
      var fd;
      e, fd := PidfdOpen(pid, support);
      match support {
        case Broken => return;
        case Unavailable =>
          e := CheckStart(pid, start, readable);
          if e != Nil {
            return;
          }
          ghost var alive0, born0 := alive, born;
          Interfere();
          EvolvesTransitive(old(alive), old(born), alive0, born0, alive, born);
          e := Kill(pid, sig, permitted);
          return;
        case Supported =>
          if e != Nil {
            return;
          }
          ghost var alive0, born0 := alive, born;
          Interfere();
          EvolvesTransitive(old(alive), old(born), alive0, born0, alive, born);
          e := CheckStart(pid, start, readable);
          if e != Nil {
            return;
          }
          // The picked process holds the PID now, so it held it when the descriptor was opened.
          if start != 0 {
            HeldThroughout(alive0, born0, alive, born, picked);
            assert fd == picked;
          }
          ghost var alive1, born1 := alive, born;
          Interfere();
          EvolvesTransitive(old(alive), old(born), alive1, born1, alive, born);
          e := PidfdSend(fd, sig, permitted);
      }
    }

    // GetProcDetail: the start time, then the other fields one by one, then the start time again.
    // `from` records which process each field was read from.
    method GetProcDetail(pid: int, fields: nat, readable: bool)
      returns (start: nat, e: Errno, ghost from: seq<Option<Proc>>)
      requires Valid()
      modifies `alive, `born
      ensures Valid() && Evolves(old(alive), old(born), alive, born)
      // A detail that carries a start time mixes no two processes, and that process is still there.
      ensures e == Nil && start != 0 ==> |from| == fields && forall i :: 0 <= i < fields ==> from[i] == Some(Proc(pid, start))
      ensures e == Nil && start != 0 ==> IsAlive(alive, Proc(pid, start))
      // A process that lives through the call is always described.
      ensures readable && pid in old(alive) && IsAlive(alive, Proc(pid, old(alive)[pid])) ==>
                e == Nil && start == old(alive)[pid]
      ensures e != Nil ==> start == 0
    {
      from := [];
      Interfere();
      if pid !in alive {
        return 0, ErrOther, from;
      }
      var first;
      start, first := ProcStartTime(pid, readable);
      if first != Nil {
        start := 0;
      }
      ghost var p := Proc(pid, start);
      for i := 0 to fields
        invariant Valid() && Evolves(old(alive), old(born), alive, born) && |from| == i
        invariant first == Nil ==> p in born
        invariant readable && pid in old(alive) && IsAlive(alive, Proc(pid, old(alive)[pid])) ==>
                    first == Nil && start == old(alive)[pid]
        invariant first == Nil && IsAlive(alive, p) ==> forall j :: 0 <= j < i ==> from[j] == Some(p)
      {
        ghost var alive0, born0 := alive, born;
        Interfere();
        EvolvesTransitive(old(alive), old(born), alive0, born0, alive, born);
        from := from + [if pid in alive then Some(Proc(pid, alive[pid])) else None];
      }
      ghost var alive0, born0 := alive, born;
      Interfere();
      EvolvesTransitive(old(alive), old(born), alive0, born0, alive, born);
      var end;
      end, e := ProcStartTime(pid, readable);
      if e != Nil || (start != 0 && end != start) {
        return 0, ErrProcGone, from;
      }
    }
  }

  lemma EvolvesReflexive(alive: map<int, nat>, born: set<Proc>)
    requires Consistent(alive, born)
    ensures Evolves(alive, born, alive, born)
  {}

  lemma EvolvesTransitive(a0: map<int, nat>, b0: set<Proc>, a1: map<int, nat>, b1: set<Proc>, a2: map<int, nat>, b2: set<Proc>)
    requires Evolves(a0, b0, a1, b1) && Evolves(a1, b1, a2, b2)
    ensures Evolves(a0, b0, a2, b2)
  {}

  // The reason the descriptor must be opened before the check. A process that holds its PID now held
  // it at every moment since it was known to be born.
  lemma HeldThroughout(alive0: map<int, nat>, born0: set<Proc>, alive1: map<int, nat>, born1: set<Proc>, p: Proc)
    requires Evolves(alive0, born0, alive1, born1) && p in born0 && IsAlive(alive1, p)
    ensures IsAlive(alive0, p)
  {}

  // Without a pidfd the check and the signal are apart. On any process table the picked process can
  // pass the check, exit and have its PID recycled for any newcomer; the plain kill then reaches that.
  lemma FallbackCanMiss(alive: map<int, nat>, born: set<Proc>, picked: Proc, newcomer: Proc)
    requires Consistent(alive, born) && IsAlive(alive, picked)
    requires newcomer !in born && newcomer.pid == picked.pid
    ensures CheckPasses(alive, picked.pid, picked.start, true)
    ensures var (atKill, bornAtKill) := ApplyAll(alive, born, [Exit(picked.pid), Spawn(newcomer)]);
            && Evolves(alive, born, atKill, bornAtKill)
            && forall p :: KillReaches(atKill, picked.pid, p, true) <==> p == newcomer
  {
    var cs := [Exit(picked.pid), Spawn(newcomer)];
    EnvironmentEvolves(alive, born, cs);
    assert picked in born && picked.pid > 0;
    assert cs[..1] == [Exit(picked.pid)] && cs[..1][..0] == [];
    assert ApplyAll(alive, born, cs[..1]) == (alive - {picked.pid}, born);
    assert ApplyAll(alive, born, cs) == Apply(alive - {picked.pid}, born, Spawn(newcomer));
  }
}
