/**
The trend tracker of internal/ui/trend.go: a window of readings per metric, the rate across it, and
how long until that rate reaches a target. Times are integer nanoseconds, readings are reals.
*/
module Trend {
  import opened Wrappers

  const SECOND := 1_000_000_000
  const MINUTE := 60 * SECOND
  const NANOS_PER_HOUR: real := 3_600_000_000_000.0
  const MAX_HOURS: real := 100_000.0     // trendMaxHours
  const MAX_INT64 := 0x7fff_ffff_ffff_ffff

  datatype Point = Point(at: int, v: real)

  datatype Spans = Spans(window: int, minSpan: int)

  function TrendSpans(key: string): (s: Spans)
    ensures 0 < s.minSpan <= s.window
  {
    if key == "batt" then Spans(10 * MINUTE, 5 * MINUTE)
    else if "temp:" <= key then Spans(3 * MINUTE, 90 * SECOND)
    else Spans(2 * MINUTE, 45 * SECOND)
  }

  // ----- one series -----

  function Last(pts: seq<Point>): Point
    requires pts != []
  {
    pts[|pts| - 1]
  }

  // A gap longer than the window starts the series over.
  predicate Restarts(pts: seq<Point>, now: int, window: int) {
    pts != [] && now - Last(pts).at > window
  }

  // How many points at the front are older than the cut.
  function Stale(pts: seq<Point>, cut: int): (n: nat)
    ensures n <= |pts|
    ensures forall i :: 0 <= i < n ==> pts[i].at < cut
    ensures n < |pts| ==> pts[n].at >= cut
  {
    if pts == [] || pts[0].at >= cut then 0 else 1 + Stale(pts[1..], cut)
  }

  function Extended(pts: seq<Point>, v: real, now: int, window: int): seq<Point> {
    (if Restarts(pts, now, window) then [] else pts) + [Point(now, v)]
  }

  lemma ExtendedCases(pts: seq<Point>, v: real, now: int, window: int)
    ensures Restarts(pts, now, window) ==> Extended(pts, v, now, window) == [] + [Point(now, v)]
    ensures !Restarts(pts, now, window) ==> Extended(pts, v, now, window) == pts + [Point(now, v)]
  {}

  // The series after one more reading: one point behind the window is kept.
  function Observed(pts: seq<Point>, v: real, now: int, window: int): seq<Point> {
    var all := Extended(pts, v, now, window);
    var n := Stale(all, now - window);
    all[if n > 0 then n - 1 else 0..]
  }

  // The series after an eviction.
  function Evicted(pts: seq<Point>, now: int, window: int): seq<Point> {
    if pts == [] || now - Last(pts).at > window then [] else pts
  }

  function Span(pts: seq<Point>): int {
    if pts == [] then 0 else Last(pts).at - pts[0].at
  }

  function Slope(a: Point, b: Point): real
    requires a.at != b.at
  {
    (b.v - a.v) / ((b.at - a.at) as real / NANOS_PER_HOUR)
  }

  // rate: the change per hour across the retained window.
  function Rate(pts: seq<Point>, minSpan: int): Option<real>
    requires minSpan > 0
  {
    if |pts| < 2 || Span(pts) < minSpan then None else Some(Slope(pts[0], Last(pts)))
  }

  // ----- the code -----

  // What observe does to the series of its key.
  method WithReading(series: seq<Point>, v: real, now: int, window: int) returns (kept: seq<Point>)
    ensures kept == Observed(series, v, now, window)
  {
    hide Stale, Extended;
    ExtendedCases(series, v, now, window);
    var pts := series;
    var n := |pts|;
    if n > 0 && now - pts[n - 1].at > window {
      pts := [];
    }
    pts := pts + [Point(now, v)];
    assert pts == Extended(series, v, now, window);
    var cut := now - window;
    var first := 0;
    while first < |pts| && pts[first].at < cut
      invariant first <= |pts|
      invariant forall i :: 0 <= i < first ==> pts[i].at < cut
    {
      first := first + 1;
    }
    assert first == Stale(pts, cut);
    if first > 0 {
      first := first - 1;
    }
    return pts[first..];
  }

  class TrendTracker {
    var series: map<string, seq<Point>>

    constructor ()
      ensures series == map[]
    {
      series := map[];
    }

    function Points(key: string): seq<Point>
      reads this
    {
      if key in series then series[key] else []
    }

    method Observe(key: string, v: real, now: int)
      modifies this
      ensures series == old(series)[key := Observed(old(Points(key)), v, now, TrendSpans(key).window)]
    {
      hide *;
      var pts := WithReading(Points(key), v, now, TrendSpans(key).window);
      series := series[key := pts];
    }

    // Forget the series that have not been observed for longer than their window.
    method Evict(now: int)
      modifies this
      ensures forall k :: k in series <==>
                k in old(series) && old(series[k]) != [] &&
                now - old(series[k])[|old(series[k])| - 1].at <= TrendSpans(k).window
      ensures forall k :: k in series ==> series[k] == old(series)[k]
      ensures forall k :: Points(k) == Evicted(old(Points(k)), now, TrendSpans(k).window)
    {
      hide TrendSpans;
      var todo := series.Keys;
      while todo != {}
        invariant todo <= old(series).Keys
        invariant forall k :: k in series <==> k in old(series) && (k in todo || Kept(k, old(series)[k], now))
        invariant forall k :: k in series ==> series[k] == old(series)[k]
        decreases todo
      {
        var k :| k in todo;
        var pts := series[k];
        if |pts| == 0 || now - pts[|pts| - 1].at > TrendSpans(k).window {
          series := series - {k};
        }
        todo := todo - {k};
      }
    }

    method SustainedRate(key: string) returns (perHour: real, ok: bool)
      ensures ok <==> Rate(Points(key), TrendSpans(key).minSpan).Some?
      ensures ok ==> perHour == Sustained(Points(key), TrendSpans(key).minSpan)
    {
      hide TrendSpans, UpTo;
      var pts := Points(key);
      var whole := Rate(pts, TrendSpans(key).minSpan);
      if whole.None? {
        return 0.0, false;
      }
      var last := pts[|pts| - 1];
      var mid := last.at - (last.at - pts[0].at) / 2;
      var base := pts[0];
      var i := 0;
      while i < |pts| && pts[i].at <= mid
        invariant 0 <= i <= |pts|
        invariant base == if i == 0 then pts[0] else pts[i - 1]
        invariant forall j :: 0 <= j < i ==> pts[j].at <= mid
      {
        base := pts[i];
        i := i + 1;
      }
      assert i == UpTo(pts, mid);
      var span := last.at - base.at;
      if span > 0 {
        var recent := (last.v - base.v) / (span as real / NANOS_PER_HOUR);
        if Abs(recent) < Abs(whole.value) {
          return recent, true;
        }
      }
      return whole.value, true;
    }

    method EtaTo(key: string, current: real, target: real) returns (eta: int, ok: bool)
      ensures ok <==> exists hours: real :: Reaches(Rate(Points(key), TrendSpans(key).minSpan), current, target, hours)
      ensures forall hours: real :: Reaches(Rate(Points(key), TrendSpans(key).minSpan), current, target, hours) ==>
                ok && eta == (hours * NANOS_PER_HOUR).Floor
      ensures ok ==> 0 <= eta <= 360_000_000_000_000_000 <= MAX_INT64
    {
      hide TrendSpans, Rate;
      var perHour := Rate(Points(key), TrendSpans(key).minSpan);
      if perHour.None? || perHour.value == 0.0 {
        return 0, false;
      }
      var remaining := target - current;
      MeetingTime(perHour.value, current, target);
      if remaining == 0.0 {
        return 0, false;
      }
      if (remaining > 0.0) != (perHour.value > 0.0) {
        return 0, false;
      }
      var hours := remaining / perHour.value;
      if hours <= 0.0 || hours > MAX_HOURS {
        return 0, false;
      }
      eta, ok := (hours * NANOS_PER_HOUR).Floor, true;
      assert Reaches(perHour, current, target, hours);
    }

    method Reset()
      modifies this
      ensures series == map[]
      ensures forall k :: Points(k) == []
    {
      series := map[];
    }
  }

  predicate Kept(key: string, pts: seq<Point>, now: int) {
    pts != [] && now - Last(pts).at <= TrendSpans(key).window
  }

  function Abs(x: real): real {
    if x < 0.0 then -x else x
  }

  // How many points at the front are at or before mid.
  function UpTo(pts: seq<Point>, mid: int): (n: nat)
    ensures n <= |pts|
    ensures forall i :: 0 <= i < n ==> pts[i].at <= mid
    ensures n < |pts| ==> pts[n].at > mid
  {
    if pts == [] || pts[0].at > mid then 0 else 1 + UpTo(pts[1..], mid)
  }

  function Midpoint(pts: seq<Point>): int
    requires pts != []
  {
    Last(pts).at - Span(pts) / 2
  }

  // The reading the recent half is measured from.
  function BaseIndex(pts: seq<Point>): (b: nat)
    requires pts != []
    ensures b < |pts|
  {
    var n := UpTo(pts, Midpoint(pts));
    if n > 0 then n - 1 else 0
  }

  function Sustained(pts: seq<Point>, minSpan: int): real
    requires minSpan > 0 && Rate(pts, minSpan).Some?
  {
    var whole, base := Rate(pts, minSpan).value, pts[BaseIndex(pts)];
    if Last(pts).at > base.at && Abs(Slope(base, Last(pts))) < Abs(whole) then Slope(base, Last(pts)) else whole
  }

  // At this rate, current becomes target in `hours` hours: in the future, and within the cap.
  ghost predicate Reaches(perHour: Option<real>, current: real, target: real, hours: real) {
    && perHour.Some? && perHour.value != 0.0
    && 0.0 < hours <= 100_000.0
    && current + perHour.value * hours == target
  }

  // ----- the window -----

  ghost predicate Sorted(pts: seq<Point>) {
    forall i, j :: 0 <= i < j < |pts| ==> pts[i].at <= pts[j].at
  }

  ghost predicate NoGaps(pts: seq<Point>, window: int) {
    forall i :: 0 < i < |pts| ==> GapFits(pts, i, window)
  }

  ghost predicate GapFits(pts: seq<Point>, i: int, window: int)
    requires 0 < i < |pts|
  {
    pts[i].at - pts[i - 1].at <= window
  }

  // What holds of a series just after an observation at `now`.
  ghost predicate InWindow(pts: seq<Point>, now: int, window: int) {
    && pts != [] && Last(pts).at == now
    && Sorted(pts) && NoGaps(pts, window)
    && forall i :: 0 < i < |pts| ==> pts[i].at >= now - window
  }

  lemma ObserveKeepsWindow(pts: seq<Point>, was: int, v: real, now: int, window: int)
    requires window > 0 && was <= now
    requires pts == [] || InWindow(pts, was, window)
    ensures InWindow(Observed(pts, v, now, window), now, window)
    ensures Last(Observed(pts, v, now, window)) == Point(now, v)
  {
    hide Extended, Stale;
    var all := Extended(pts, v, now, window);
    ExtendedProperties(pts, was, v, now, window);
    var n := Stale(all, now - window);
    var from := if n > 0 then n - 1 else 0;
    assert all[|all| - 1].at == now;
    assert n < |all|;
    SuffixKeeps(all, from, window);
    forall i | 0 < i < |all[from..]| ensures all[from..][i].at >= now - window {
      assert all[n].at <= all[from + i].at;
    }
  }

  lemma ExtendedProperties(pts: seq<Point>, was: int, v: real, now: int, window: int)
    requires window > 0 && was <= now
    requires pts == [] || InWindow(pts, was, window)
    ensures var all := Extended(pts, v, now, window);
            all != [] && Last(all) == Point(now, v) && Sorted(all) && NoGaps(all, window)
  {
    var all := Extended(pts, v, now, window);
    forall i | 0 < i < |all| ensures GapFits(all, i, window) {
      if i < |pts| {
        assert GapFits(pts, i, window);
      }
    }
    forall i, j | 0 <= i < j < |all| ensures all[i].at <= all[j].at {
      if j == |all| - 1 && i < |pts| - 1 {
        assert pts[i].at <= pts[|pts| - 1].at;
      }
    }
  }

  lemma SuffixKeeps(pts: seq<Point>, from: nat, window: int)
    requires from < |pts| && Sorted(pts) && NoGaps(pts, window)
    ensures Sorted(pts[from..]) && NoGaps(pts[from..], window) && Last(pts[from..]) == Last(pts)
  {
    forall i | 0 < i < |pts[from..]| ensures GapFits(pts[from..], i, window) {
      assert GapFits(pts, from + i, window);
    }
  }

  // The points of a series in its window span at most two windows.
  lemma SpanBounded(pts: seq<Point>, now: int, window: int)
    requires window > 0 && InWindow(pts, now, window)
    ensures 0 <= Span(pts) <= 2 * window
  {
    if |pts| > 1 {
      assert GapFits(pts, 1, window);
    }
  }

  // The baseline covers the whole window.
  predicate Covers(pts: seq<Point>, window: int) {
    Span(pts) > window
  }

  // Dropping a point without a restart means the baseline covers the window.
  lemma DroppedMeansCovered(pts: seq<Point>, v: real, now: int, window: int)
    requires window > 0 && !Restarts(pts, now, window)
    requires |Observed(pts, v, now, window)| < |pts| + 1
    ensures Covers(Observed(pts, v, now, window), window)
  {
    var all := Extended(pts, v, now, window);
    assert Last(all).at == now;
  }

  // Once covered, the window stays covered until the series restarts.
  lemma StaysCovered(pts: seq<Point>, was: int, v: real, now: int, window: int)
    requires window > 0 && was <= now && InWindow(pts, was, window)
    requires Covers(pts, window) && !Restarts(pts, now, window)
    ensures Covers(Observed(pts, v, now, window), window)
  {
    var all := Extended(pts, v, now, window);
    assert all[0].at < now - window;
  }

  lemma CoveredHasRate(pts: seq<Point>, spans: Spans)
    requires 0 < spans.minSpan <= spans.window && Covers(pts, spans.window)
    ensures Rate(pts, spans.minSpan).Some?
  {}

  // ----- whole runs -----

  // The series after a run of observations.
  function After(obs: seq<Point>, window: int): seq<Point> {
    if obs == [] then []
    else
      var n := |obs| - 1;
      Observed(After(obs[..n], window), obs[n].v, obs[n].at, window)
  }

  lemma {:induction false} ObservationsInWindow(obs: seq<Point>, window: int)
    requires window > 0 && Sorted(obs) && obs != []
    ensures InWindow(After(obs, window), Last(obs).at, window)
    ensures Last(After(obs, window)) == Last(obs)
  {
    var n := |obs| - 1;
    hide Observed;
    if n > 0 {
      ObservationsInWindow(obs[..n], window);
    }
    var was := if n > 0 then obs[n - 1].at else obs[n].at;
    ObserveKeepsWindow(After(obs[..n], window), was, obs[n].v, obs[n].at, window);
  }

  // What happens to one series: the tick evicts before it observes, and resetting the peaks clears.
  datatype Event = Seen(at: int, v: real) | Swept(at: int) | Cleared(at: int)

  function SeriesAfter(evs: seq<Event>, window: int): seq<Point> {
    if evs == [] then []
    else
      var pts, last := SeriesAfter(evs[..|evs| - 1], window), evs[|evs| - 1];
      match last
      case Seen(at, v) => Observed(pts, v, at, window)
      case Swept(at) => Evicted(pts, at, window)
      case Cleared(_) => []
  }

  // The readings since the series was last cleared.
  function Readings(evs: seq<Event>): seq<Point> {
    if evs == [] then []
    else
      var last := evs[|evs| - 1];
      match last
      case Seen(at, v) => Readings(evs[..|evs| - 1]) + [Point(at, v)]
      case Swept(_) => Readings(evs[..|evs| - 1])
      case Cleared(_) => []
  }

  ghost predicate InTime(evs: seq<Event>) {
    forall i, j :: 0 <= i < j < |evs| ==> evs[i].at <= evs[j].at
  }

  // An eviction only removes what the next reading would have started over anyway.
  ghost predicate SweptAway(pts: seq<Point>, obs: seq<Point>, now: int, window: int) {
    pts == [] && obs != [] && Last(obs).at + window < now
  }

  lemma {:induction false} ReadingsInTime(evs: seq<Event>)
    requires InTime(evs)
    ensures Sorted(Readings(evs))
    ensures evs != [] ==> forall i :: 0 <= i < |Readings(evs)| ==> Readings(evs)[i].at <= evs[|evs| - 1].at
  {
    if evs != [] {
      var pre := evs[..|evs| - 1];
      ReadingsInTime(pre);
      assert pre != [] ==> pre[|pre| - 1].at <= evs[|evs| - 1].at;
    }
  }

  // Evicted or not, a series is the one its readings alone would have made, or gone for good.
  lemma {:induction false} SweptSeries(evs: seq<Event>, window: int)
    requires window > 0 && InTime(evs) && evs != []
    ensures var pts, obs := SeriesAfter(evs, window), Readings(evs);
            pts == After(obs, window) || SweptAway(pts, obs, evs[|evs| - 1].at, window)
  {
    hide Observed;
    var pre, last := evs[..|evs| - 1], evs[|evs| - 1];
    if pre != [] {
      SweptSeries(pre, window);
      ReadingsInTime(pre);
      var pts, obs := SeriesAfter(pre, window), Readings(pre);
      assert pre[|pre| - 1].at <= last.at;
      if obs != [] {
        ObservationsInWindow(obs, window);
      }
      match last {
        case Seen(at, v) =>
          ReadAfterSweep(pts, obs, v, at, window);
          assert (obs + [Point(at, v)])[..|obs|] == obs;
        case Swept(at) =>
        case Cleared(_) =>
      }
    } else if last.Seen? {
      assert ([] + [Point(last.at, last.v)])[..0] == [];
    }
  }

  lemma ReadAfterSweep(pts: seq<Point>, obs: seq<Point>, v: real, at: int, window: int)
    requires window > 0
    requires obs != [] ==> After(obs, window) != [] && Last(After(obs, window)) == Last(obs)
    requires pts == After(obs, window) || SweptAway(pts, obs, at, window)
    ensures Observed(pts, v, at, window) == Observed(After(obs, window), v, at, window)
  {
    ExtendedCases(pts, v, at, window);
    ExtendedCases(After(obs, window), v, at, window);
    hide Extended, Stale, After;
  }

  // However evictions and resets fall between readings, after every reading the series is in its
  // window, and it is the series of the readings since the last reset.
  lemma RunInWindow(evs: seq<Event>, window: int)
    requires window > 0 && InTime(evs) && evs != [] && evs[|evs| - 1].Seen?
    ensures var pts, last := SeriesAfter(evs, window), evs[|evs| - 1];
            && pts == After(Readings(evs), window)
            && InWindow(pts, last.at, window) && Last(pts) == Point(last.at, last.v)
  {
    SweptSeries(evs, window);
    ReadingsInTime(evs);
    hide Observed, After;
    ObservationsInWindow(Readings(evs), window);
  }

  // If the window is covered after m observations and no later gap exceeds the window, there is a
  // rate after every later observation.
  lemma {:induction false} RateFromThenOn(obs: seq<Point>, m: nat, spans: Spans)
    requires 0 < spans.minSpan <= spans.window
    requires Sorted(obs) && 0 < m <= |obs| && Covers(After(obs[..m], spans.window), spans.window)
    requires forall i :: m <= i < |obs| ==> GapFits(obs, i, spans.window)
    ensures Covers(After(obs, spans.window), spans.window)
    ensures Rate(After(obs, spans.window), spans.minSpan).Some?
  {
    hide Observed, Rate, Covers;
    var n := |obs| - 1;
    if m == |obs| {
      assert obs[..m] == obs;
    } else {
      var pre := obs[..n];
      assert pre[..m] == obs[..m];
      forall i | m <= i < |pre| ensures GapFits(pre, i, spans.window) {
        assert GapFits(obs, i, spans.window);
      }
      RateFromThenOn(pre, m, spans);
      ObservationsInWindow(pre, spans.window);
      assert GapFits(obs, n, spans.window);
      StaysCovered(After(pre, spans.window), obs[n - 1].at, obs[n].v, obs[n].at, spans.window);
    }
    CoveredHasRate(After(obs, spans.window), spans);
  }

  // ----- what a reading does to its series, written out -----

  // A gap longer than the window starts over. Otherwise the series with the new reading loses points
  // from its front only, none that are inside the window, and all but one of those that are not.
  lemma ObservedIs(pts: seq<Point>, v: real, now: int, window: int)
    requires window > 0 && Sorted(pts) && (pts != [] ==> pts[|pts| - 1].at <= now)
    ensures var r, all := Observed(pts, v, now, window), pts + [Point(now, v)];
            if pts != [] && now - pts[|pts| - 1].at > window then r == [Point(now, v)]
            else
              && 1 <= |r| <= |all| && r == all[|all| - |r|..]
              && (forall i :: 0 <= i < |all| - |r| ==> all[i].at < now - window)
              && (forall i :: 0 < i < |r| ==> r[i].at >= now - window)
              && (|r| < |all| ==> r[0].at < now - window)
  {
    hide Stale;
    var all := Extended(pts, v, now, window);
    var n := Stale(all, now - window);
    assert all[|all| - 1] == Point(now, v);
    forall i, j | 0 <= i <= j < |all| ensures all[i].at <= all[j].at {
    }
  }

  // The spans in nanoseconds: ten minutes and five for the battery, three and one and a half for
  // temperatures, two minutes and 45 seconds for the rest.
  lemma SpansAre(key: string)
    ensures TrendSpans("batt") == Spans(600_000_000_000, 300_000_000_000)
    ensures "temp:" <= key ==> TrendSpans(key) == Spans(180_000_000_000, 90_000_000_000)
    ensures key != "batt" && !("temp:" <= key) ==> TrendSpans(key) == Spans(120_000_000_000, 45_000_000_000)
  {
    assert "temp:" <= key ==> key[0] == 't';
  }

  // ----- arithmetic -----

  // Going on at the rate for the time from the first point to the last, counted in hours, leads from
  // the one value to the other; and there is a rate exactly when that time is long enough.
  lemma RateIs(pts: seq<Point>, minSpan: int)
    requires minSpan > 0
    ensures Rate(pts, minSpan).Some? <==> |pts| >= 2 && pts[|pts| - 1].at - pts[0].at >= minSpan
    ensures Rate(pts, minSpan).Some? ==> Leads(pts[0], Rate(pts, minSpan).value, pts[|pts| - 1])
  {
    if Rate(pts, minSpan).Some? {
      SlopeLeads(pts[0], pts[|pts| - 1]);
    }
  }

  // a's value becomes b's at this rate per hour; an hour has 3.6e12 nanoseconds.
  ghost predicate Leads(a: Point, perHour: real, b: Point) {
    a.v + perHour * ((b.at - a.at) as real / 3_600_000_000_000.0) == b.v
  }

  lemma SlopeLeads(a: Point, b: Point)
    requires a.at != b.at
    ensures Leads(a, Slope(a, b), b)
  {
    var hours := (b.at - a.at) as real / 3_600_000_000_000.0;
    assert hours != 0.0;
    assert (b.v - a.v) / hours * hours == b.v - a.v;
  }

  lemma LeadsOnce(a: Point, x: real, y: real, b: Point)
    requires Leads(a, x, b) && Leads(a, y, b) && a.at != b.at
    ensures x == y
  {
    var hours := (b.at - a.at) as real / 3_600_000_000_000.0;
    assert hours != 0.0;
    SameProduct(hours, x, y);
  }

  // The sustained rate is the flatter of two: the rate of the whole window, and the rate that leads
  // from the base of the recent half to the last point.
  lemma SustainedIs(pts: seq<Point>, minSpan: int, recent: real)
    requires minSpan > 0 && Rate(pts, minSpan).Some?
    requires pts[BaseIndex(pts)].at < pts[|pts| - 1].at && Leads(pts[BaseIndex(pts)], recent, pts[|pts| - 1])
    ensures var whole := Rate(pts, minSpan).value;
            Sustained(pts, minSpan) == if Abs(recent) < Abs(whole) then recent else whole
  {
    var base, last := pts[BaseIndex(pts)], pts[|pts| - 1];
    SlopeLeads(base, last);
    LeadsOnce(base, recent, Slope(base, last), last);
    hide Rate, BaseIndex, Slope;
  }

  // The recent half is measured from the latest reading at or before the midpoint, and the result
  // is never steeper than the whole window.
  lemma SustainedProperties(pts: seq<Point>, minSpan: int)
    requires minSpan >= 2 && Sorted(pts) && Rate(pts, minSpan).Some?
    ensures Abs(Sustained(pts, minSpan)) <= Abs(Rate(pts, minSpan).value)
    ensures var b := BaseIndex(pts);
            var mid := pts[|pts| - 1].at - (pts[|pts| - 1].at - pts[0].at) / 2;
            && pts[b].at <= mid < pts[|pts| - 1].at
            && forall i :: b < i < |pts| ==> pts[i].at > mid
  {
    var mid := Midpoint(pts);
    var n := UpTo(pts, mid);
    assert pts[0].at <= mid;
    assert n > 0;
    forall i | n <= i < |pts| ensures pts[i].at > mid {
      assert pts[n].at <= pts[i].at;
    }
  }

  // A line of non-zero slope meets the target at one time only, and in the future exactly when it
  // heads there.
  lemma MeetingTime(perHour: real, current: real, target: real)
    requires perHour != 0.0
    ensures forall hours: real :: Reaches(Some(perHour), current, target, hours) ==> hours == (target - current) / perHour
    ensures current + perHour * ((target - current) / perHour) == target
    ensures (target - current) / perHour > 0.0 <==>
            target != current && ((target - current > 0.0) == (perHour > 0.0))
  {
    var h := (target - current) / perHour;
    assert perHour * h == target - current;
    forall hours: real | Reaches(Some(perHour), current, target, hours) ensures hours == h {
      SameProduct(perHour, hours, h);
    }
    SignOfQuotient(perHour, h);
  }

  lemma SameProduct(a: real, x: real, y: real)
    requires a != 0.0 && a * x == a * y
    ensures x == y
  {
    assert a * (x - y) == 0.0;
  }

  lemma SignOfQuotient(a: real, h: real)
    requires a != 0.0
    ensures h > 0.0 <==> a * h != 0.0 && ((a * h > 0.0) == (a > 0.0))
  {}
}
