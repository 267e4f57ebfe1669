/**
The identity held by the process-detail overlay, internal/ui/detail.go: which process its data and its
signals are about while replies for its PID keep arriving.
*/
module DetailOverlay {

  // A reply for the overlay's PID; start is 0 when the fetch could not read it.
  datatype Reply = Failed | Fetched(start: nat, data: string)

  // What a key press sends.
  datatype Request = Request(pid: int, start: nat)

  datatype Overlay = Overlay(pid: int, start: nat, gone: bool, loaded: bool, shownStart: nat, shown: string)

  function Opened(pid: int, start: nat): Overlay {
    Overlay(pid, start, false, false, 0, "")
  }

  function Learned(st: Overlay, r: Reply): nat {
    if r.Fetched? && st.start == 0 then r.start else st.start
  }

  function Applied(st: Overlay, r: Reply): Overlay {
    if st.gone then st
    else if r.Failed? || (r.start != 0 && r.start != Learned(st, r)) then st.(start := Learned(st, r), gone := true)
    else st.(start := Learned(st, r), loaded := true, shownStart := r.start, shown := r.data)
  }

  function After(st: Overlay, replies: seq<Reply>): Overlay {
    if replies == [] then st else Applied(After(st, replies[..|replies| - 1]), replies[|replies| - 1])
  }

  class ProcDetailState {
    const pid: int
    ghost const startGiven: nat     // the start time it was opened with, 0 if unknown
    ghost var replies: seq<Reply>   // every reply since
    var start: nat
    var gone: bool
    var loaded: bool
    var shownStart: nat
    var shown: string

    function View(): Overlay
      reads this
    {
      Overlay(pid, start, gone, loaded, shownStart, shown)
    }

    ghost predicate Valid()
      reads this
    {
      View() == After(Opened(pid, startGiven), replies)
    }

    constructor (pid: int, start: nat)
      ensures Valid() && this.pid == pid && startGiven == start && replies == []
    {
      this.pid, this.start, startGiven, replies := pid, start, start, [];
      gone, loaded, shownStart, shown := false, false, 0, "";
    }

    method Apply(msg: Reply)
      requires Valid()
      modifies this
      ensures Valid() && replies == old(replies) + [msg]
    {
      assert (replies + [msg])[..|replies|] == replies;
      replies := replies + [msg];
      if gone {
        return;
      }
      if msg.Fetched? && start == 0 {
        start := msg.start;
      }
      if msg.Failed? || (msg.start != 0 && msg.start != start) {
        gone := true;
        return;
      }
      shownStart, shown := msg.start, msg.data;
      loaded := true;
    }

    // The keys that act on the process: they act on the one process that every reply so far was about,
    // and on none once a reply failed or was about another.
    method ActionKey() returns (r: seq<Request>)
      requires Valid()
      ensures r == if AllFrom(replies, Identity(startGiven, replies)) then [Request(pid, Identity(startGiven, replies))] else []
    {
      GoneIff(pid, startGiven, replies);
      if gone {
        return [];
      }
      return [Request(pid, start)];
    }
  }

  // ----- one process for as long as the overlay is open -----

  // The first start time the overlay could have learned.
  function Identity(start: nat, replies: seq<Reply>): nat
    decreases |replies|
  {
    if start != 0 || replies == [] then start
    else if replies[0].Fetched? then Identity(replies[0].start, replies[1..])
    else start
  }

  lemma {:induction false} IdentityGrows(start: nat, replies: seq<Reply>, r: Reply)
    requires forall i :: 0 <= i < |replies| ==> replies[i].Fetched?
    ensures Identity(start, replies + [r]) ==
            if Identity(start, replies) == 0 && r.Fetched? then r.start else Identity(start, replies)
    decreases |replies|
  {
    if start == 0 && replies != [] {
      assert (replies + [r])[1..] == replies[1..] + [r];
      IdentityGrows(replies[0].start, replies[1..], r);
    }
  }

  // Replies that all came from the process with this start time, as far as they say.
  ghost predicate AllFrom(replies: seq<Reply>, start: nat) {
    forall i :: 0 <= i < |replies| ==> replies[i].Fetched? && (replies[i].start == 0 || replies[i].start == start)
  }

  // The overlay still acts on its process exactly when every reply so far succeeded and named that
  // process or none; and then it carries that one identity.
  lemma {:induction false} GoneIff(pid: int, start: nat, replies: seq<Reply>)
    ensures var st := After(Opened(pid, start), replies);
            && st.pid == pid
            && (!st.gone <==> AllFrom(replies, Identity(start, replies)))
            && (!st.gone ==> st.start == Identity(start, replies))
  {
    if replies != [] {
      var pre, r := replies[..|replies| - 1], replies[|replies| - 1];
      GoneIff(pid, start, pre);
      assert replies == pre + [r];
      if !After(Opened(pid, start), pre).gone {
        IdentityGrows(start, pre, r);
        ZeroIdentity(start, pre);
      } else {
        GoneStays(start, pre, r);
      }
    }
  }

  // While the identity is unknown, no reply has named one.
  lemma {:induction false} ZeroIdentity(start: nat, replies: seq<Reply>)
    requires forall i :: 0 <= i < |replies| ==> replies[i].Fetched?
    ensures Identity(start, replies) == 0 ==> start == 0 && forall i :: 0 <= i < |replies| ==> replies[i].start == 0
    decreases |replies|
  {
    if start == 0 && replies != [] {
      ZeroIdentity(replies[0].start, replies[1..]);
      assert forall i :: 0 < i < |replies| ==> replies[i] == replies[1..][i - 1];
    }
  }

  lemma GoneStays(start: nat, replies: seq<Reply>, r: Reply)
    requires !AllFrom(replies, Identity(start, replies))
    ensures !AllFrom(replies + [r], Identity(start, replies + [r]))
  {
    if i :| 0 <= i < |replies| && replies[i].Failed? {
      assert (replies + [r])[i].Failed?;
    } else {
      ZeroIdentity(start, replies);
      IdentityGrows(start, replies, r);
      var i :| 0 <= i < |replies| && replies[i].start != 0 && replies[i].start != Identity(start, replies);
      assert (replies + [r])[i] == replies[i];
    }
  }

  // Once the start time is known, every later request carries it: the target never changes.
  lemma {:induction false} TargetIsFixed(st: Overlay, replies: seq<Reply>)
    requires st.start != 0
    ensures After(st, replies).start == st.start && After(st, replies).pid == st.pid
    ensures st.gone ==> After(st, replies) == st
  {
    if replies != [] {
      TargetIsFixed(st, replies[..|replies| - 1]);
    }
  }

  // An overlay opened on a known process: after any replies a key sends a request for exactly that
  // process while every reply succeeded and named it or none, and nothing afterwards.
  lemma KnownTarget(pid: int, start: nat, replies: seq<Reply>)
    requires start != 0
    ensures Identity(start, replies) == start
    ensures var st := After(Opened(pid, start), replies);
            st.pid == pid && st.start == start && (!st.gone <==> AllFrom(replies, start))
  {
    GoneIff(pid, start, replies);
    TargetIsFixed(Opened(pid, start), replies);
  }

  // The overlay follows the replies as long as they are all from one process, shows the latest of
  // those, and then stays as it is: m of them were taken.
  lemma {:induction false} OverlayIs(pid: int, start: nat, replies: seq<Reply>) returns (m: nat)
    ensures m <= |replies| && AllFrom(replies[..m], Identity(start, replies[..m]))
    ensures m < |replies| ==> !AllFrom(replies[..m + 1], Identity(start, replies[..m + 1]))
    ensures var st := After(Opened(pid, start), replies);
            && st.pid == pid && st.start == Identity(start, replies[..m])
            && (st.gone <==> m < |replies|) && (st.loaded <==> m > 0)
            && (m > 0 ==> replies[m - 1] == Fetched(st.shownStart, st.shown))
  {
    m := 0;
    if replies != [] {
      var n := |replies| - 1;
      var pre := replies[..n];
      m := OverlayIs(pid, start, pre);
      GoneIff(pid, start, replies);
      GoneIff(pid, start, pre);
      assert replies[..|replies|] == replies && pre[..|pre|] == pre && pre[..m] == replies[..m];
      hide Identity, AllFrom;
      if m < n {
        assert pre[..m + 1] == replies[..m + 1];
      } else if !After(Opened(pid, start), replies).gone {
        m := n + 1;
      }
    }
  }

  // What is shown was fetched from the process the overlay acts on, or from one whose start time
  // could not be read.
  lemma {:induction false} ShownIsTarget(pid: int, start: nat, replies: seq<Reply>)
    ensures var st := After(Opened(pid, start), replies);
            st.loaded ==> st.shownStart == 0 || st.shownStart == st.start
    ensures After(Opened(pid, start), replies).start == 0 ==> After(Opened(pid, start), replies).shownStart == 0
  {
    if replies != [] {
      ShownIsTarget(pid, start, replies[..|replies| - 1]);
    }
  }
}
