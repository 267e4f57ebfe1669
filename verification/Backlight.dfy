/**
Panel brightness, internal/probe/backlight.go and the +/- keys of internal/ui/model.go: percents on
screen, raw steps in the device, and rounding between them. Exact arithmetic stands for float64.
*/
module Backlight {
  import opened Wrappers

  // n/d rounded to the nearest integer, halves away from zero.
  function Round(n: int, d: int): int
    requires d > 0
  {
    if n >= 0 then (2 * n + d) / (2 * d) else -((-2 * n + d) / (2 * d))
  }

  function Clamp(pct: int): (r: int)
    ensures 0 <= r <= 100
  {
    if pct < 0 then 0 else if pct > 100 then 100 else pct
  }

  function PercentOf(raw: int, max: int): int
    requires max > 0
  {
    Clamp(Round(100 * raw, max))
  }

  function RawFor(pct: int, max: int): int
    requires max > 0
  {
    var val := Round(Clamp(pct) * max, 100);
    if val < 1 && Clamp(pct) > 0 then 1 else val
  }

  datatype SetResult = Written | NoDevice | NoMaximum | PermissionDenied | WriteFailed

  // What becomes of a write to the brightness file.
  datatype Access = Granted | Refused | Broken

  // A device directory of sysfs: its two files, either of which may be unreadable.
  class Panel {
    var brightness: int
    const readable: bool
    const maxBrightness: Option<int>
    const access: Access

    constructor (brightness: int, readable: bool, maxBrightness: Option<int>, access: Access)
      ensures this.brightness == brightness && this.readable == readable
      ensures this.maxBrightness == maxBrightness && this.access == access
    {
      this.brightness, this.readable := brightness, readable;
      this.maxBrightness, this.access := maxBrightness, access;
    }

    predicate HasMaximum() {
      maxBrightness.Some? && maxBrightness.value > 0
    }

    predicate Settable(device: string) {
      device != "" && HasMaximum() && access.Granted?
    }

    // What is read while the brightness file holds this value; None is a device that is not present.
    function Reading(raw: int): Option<int> {
      if readable && HasMaximum() then Some(PercentOf(raw, maxBrightness.value)) else None
    }

    // ReadBacklight
    method Read() returns (pct: Option<int>)
      ensures pct == Reading(brightness)
    {
      if !readable || maxBrightness.None? || maxBrightness.value <= 0 {
        return None;
      }
      var p := Round(brightness * 100, maxBrightness.value);
      if p < 0 {
        p := 0;
      }
      if p > 100 {
        p := 100;
      }
      return Some(p);
    }

    // SetBacklightPercent
    method SetPercent(device: string, percent: int) returns (r: SetResult)
      modifies `brightness
      ensures r.Written? <==> Settable(device)
      ensures brightness == if r.Written? then RawFor(percent, maxBrightness.value) else old(brightness)
      ensures r.NoDevice? <==> device == ""
      ensures r.NoMaximum? <==> device != "" && !HasMaximum()
      ensures r.PermissionDenied? <==> device != "" && HasMaximum() && access.Refused?
      ensures r.WriteFailed? <==> device != "" && HasMaximum() && access.Broken?
    {
      if device == "" {
        return NoDevice;
      }
      var pct := percent;
      if pct < 0 {
        pct := 0;
      }
      if pct > 100 {
        pct := 100;
      }
      if maxBrightness.None? || maxBrightness.value <= 0 {
        return NoMaximum;
      }
      var val := Round(pct * maxBrightness.value, 100);
      if val < 1 && pct > 0 {
        val := 1;
      }
      if access.Refused? {
        return PermissionDenied;
      }
      if access.Broken? {
        return WriteFailed;
      }
      brightness := val;
      return Written;
    }
  }

  // What the screen holds of the panel: the percent it shows, and whether it found a device at all.
  class Screen {
    const panel: Panel
    const device: string
    const step: int           // backlight_step
    var present: bool
    var percent: int

    ghost const start: int    // the panel's raw value at the beginning
    ghost var keys: seq<Key>  // every press that was written, and every reading that landed

    ghost predicate Valid()
      reads this, panel
    {
      if panel.Reading(start).None? then !present && keys == []
      else
        var s := AfterKeys(start, keys, panel.maxBrightness.value, step);
        && panel.brightness == RawAfter(start, keys, panel.maxBrightness.value, step)
        && if present then percent == s.percent else keys == []
    }

    constructor (panel: Panel, device: string, step: int)
      ensures Valid() && this.panel == panel && this.device == device && this.step == step
      ensures !present && keys == [] && start == panel.brightness
    {
      this.panel, this.device, this.step := panel, device, step;
      present, percent := false, 0;
      start, keys := panel.brightness, [];
    }

    // A sysMsg reply lands. Its reading was taken when its fetch ran, under the k-th of the raw values
    // the panel has had.
    method Land(reading: Option<int>, ghost k: nat)
      requires Valid() && k <= Writes(keys)
      requires panel.Reading(start).None? ==> reading == None
      requires panel.Reading(start).Some? ==>
                 reading == panel.Reading(AfterKeys(start, keys, panel.maxBrightness.value, step).past[k])
      modifies this
      ensures Valid() && present == reading.Some?
      ensures keys == if present then old(keys) + [Landed(k)] else old(keys)
    {
      present := reading.Some?;
      if reading.Some? {
        LandedKeys(keys, k, start, panel.maxBrightness.value, step);
        LandedRaw(keys, k, start, panel.maxBrightness.value, step);
        keys := keys + [Landed(k)];
        percent := reading.value;
      }
    }

    // adjustBacklight: the next key counts from the percent just set, before any reading confirms it.
    method Adjust(up: bool)
      requires Valid()
      modifies this, panel
      ensures Valid() && present == old(present)
      ensures keys == if present && panel.Settable(device) then old(keys) + [if up then Plus else Minus] else old(keys)
    {
      if !present {
        return;
      }
      var target := percent + (if up then step else -step);
      if target < 0 {
        target := 0;
      }
      if target > 100 {
        target := 100;
      }
      var r := panel.SetPercent(device, target);
      if !r.Written? {
        return;
      }
      PressedKeys(keys, up, start, panel.maxBrightness.value, step);
      PressedRaw(keys, up, start, panel.maxBrightness.value, step);
      keys := keys + [if up then Plus else Minus];
      percent := target;
    }
  }

  // A +/- key on a fresh reading: read the percent, add the step, write it back.
  function Press(raw: int, max: int, step: int): int
    requires max > 0
  {
    RawFor(PercentOf(raw, max) + step, max)
  }

  function Presses(raw: int, max: int, step: int, n: nat): int
    requires max > 0
  {
    if n == 0 then raw else Press(Presses(raw, max, step, n - 1), max, step)
  }

  // ----- rounding -----

  // Products are kept behind a name so that the inequalities below stay linear.
  function Times(a: int, b: int): int {
    a * b
  }

  lemma TimesIs(a: int, b: int)
    ensures Times(a, b) == a * b
  {}

  lemma TimesAdd(a: int, b: int, m: int)
    ensures Times(a + b, m) == Times(a, m) + Times(b, m)
    ensures Times(a - b, m) == Times(a, m) - Times(b, m)
  {}

  lemma TimesMonotone(a: int, b: int, m: int)
    requires m >= 0 && a < b
    ensures Times(a, m) + m <= Times(b, m)
  {
    assert b * m - (a + 1) * m == (b - a - 1) * m;
  }

  lemma StepProduct(step: int, m: int)
    ensures (2 * step - 1) * m == 2 * Times(step, m) - m
  {}

  lemma RoundBounds(n: int, d: int)
    requires n >= 0 && d > 0
    ensures Round(n, d) >= 0
    ensures 2 * Times(Round(n, d), d) <= 2 * n + d < 2 * Times(Round(n, d), d) + 2 * d
  {
    var q := (2 * n + d) / (2 * d);
    assert 2 * n + d == 2 * d * q + (2 * n + d) % (2 * d);
  }

  lemma RawProperties(pct: int, max: int)
    requires 0 <= pct <= 100 && max > 0
    ensures 0 <= RawFor(pct, max) <= max
    ensures RawFor(pct, max) == 0 ==> pct == 0
    ensures pct == 0 ==> RawFor(pct, max) == 0
    ensures pct == 100 ==> RawFor(pct, max) == max
    ensures 200 * RawFor(pct, max) > 2 * Times(pct, max) - 100
    ensures 200 * RawFor(pct, max) <= 2 * Times(pct, max) + 100 || RawFor(pct, max) == 1
  {
    hide Times, Round;
    var val := Round(pct * max, 100);
    TimesIs(pct, max);
    TimesIs(val, 100);
    assert 0 <= pct * max <= 100 * max by {
      assert 100 * max - pct * max == (100 - pct) * max;
    }
    RoundBounds(pct * max, 100);
    assert RawFor(pct, max) == if val < 1 && pct > 0 then 1 else val;
  }

  lemma PercentProperties(raw: int, max: int)
    requires 0 <= raw <= max && max > 0
    ensures 2 * Times(PercentOf(raw, max), max) <= 200 * raw + max < 2 * Times(PercentOf(raw, max), max) + 2 * max
  {
    var u := Round(100 * raw, max);
    RoundBounds(100 * raw, max);
    if u > 100 {
      TimesMonotone(100, u, max);
    }
    assert PercentOf(raw, max) == u;
  }

  // ----- the percent shown is the percent set -----

  lemma RoundTrip(pct: int, max: int)
    requires 0 <= pct <= 100 && max >= 100
    ensures PercentOf(RawFor(pct, max), max) == pct
  {
    hide Times, Round, RawFor, PercentOf;
    var raw := RawFor(pct, max);
    var p := PercentOf(raw, max);
    RawProperties(pct, max);
    PercentProperties(raw, max);
    TimesIs(0, max);
    TimesIs(pct, max);
    TimesIs(p, max);
    if pct > 0 {
      TimesMonotone(0, pct, max);
    }
    if p < pct {
      TimesMonotone(p, pct, max);
    }
    if p > pct {
      TimesMonotone(pct, p, max);
    }
  }

  ghost predicate ReadsBackWhatWasSet(max: int)
    requires max > 0
  {
    forall pct :: 0 <= pct <= 100 ==> PercentOf(RawFor(pct, max), max) == pct
  }

  lemma PercentMonotone(a: int, b: int, max: int)
    requires 0 <= a <= b <= max && max > 0
    ensures PercentOf(a, max) <= PercentOf(b, max)
  {
    hide Times, Round, RawFor, PercentOf;
    PercentProperties(a, max);
    PercentProperties(b, max);
    if PercentOf(a, max) > PercentOf(b, max) {
      TimesMonotone(PercentOf(b, max), PercentOf(a, max), max);
    }
  }

  // Distinct percents that read back correctly need distinct raw values.
  lemma {:induction false} RawAtLeast(pct: nat, max: int)
    requires pct <= 100 && max > 0 && ReadsBackWhatWasSet(max)
    ensures RawFor(pct, max) >= pct
  {
    hide Times, Round, RawFor, PercentOf;
    RawProperties(pct, max);
    if pct > 0 {
      RawAtLeast(pct - 1, max);
      RawProperties(pct - 1, max);
      assert PercentOf(RawFor(pct - 1, max), max) == pct - 1 && PercentOf(RawFor(pct, max), max) == pct;
      if RawFor(pct, max) <= RawFor(pct - 1, max) {
        PercentMonotone(RawFor(pct, max), RawFor(pct - 1, max), max);
      }
    }
  }

  // Reading back after setting is the identity on 0..100 exactly when the panel has at least 100 steps.
  lemma ReadsBackIff(max: int)
    requires max > 0
    ensures ReadsBackWhatWasSet(max) <==> max >= 100
  {
    hide Times, Round, RawFor, PercentOf;
    if max >= 100 {
      forall pct | 0 <= pct <= 100 ensures PercentOf(RawFor(pct, max), max) == pct {
        RoundTrip(pct, max);
      }
    }
    if ReadsBackWhatWasSet(max) {
      RawAtLeast(100, max);
      RawProperties(100, max);
    }
  }

  // ----- the keys make progress -----

  // Where "+" finds a higher raw value to write: the panel is dark, or the percent to set reaches
  // half way to the next one.
  predicate Climbs(raw: int, max: int, step: int)
    requires max > 0
  {
    raw == 0 || 2 * Times(PercentOf(raw, max) + step, max) >= 200 * raw + 100
  }

  // "+" moves up exactly there, and nowhere down.
  lemma UpAdvancesIff(raw: int, max: int, step: int)
    requires 0 <= raw < max && step >= 1
    ensures raw <= Press(raw, max, step) <= max
    ensures raw < Press(raw, max, step) <==> Climbs(raw, max, step)
  {
    hide Times, Round, RawFor, PercentOf;
    var p := PercentOf(raw, max);
    PercentProperties(raw, max);
    PercentRange(raw, max);
    ClampedRaw(p + step, max);
    TimesAdd(p, step, max);
    TimesMonotone(0, step, max);
    TimesIs(0, max);
    if p + step < 100 {
      RawProperties(p + step, max);
    } else {
      RawProperties(100, max);
      TimesIs(100, max);
      if p + step > 100 {
        TimesMonotone(100, p + step, max);
      }
    }
  }

  // A step this large climbs from every raw value below the maximum.
  lemma UpAdvances(raw: int, max: int, step: int)
    requires 0 <= raw < max && step >= 1 && (2 * step - 1) * max >= 100
    ensures raw < Press(raw, max, step) <= max
  {
    hide Times, Round, RawFor, PercentOf;
    PercentProperties(raw, max);
    StepProduct(step, max);
    TimesAdd(PercentOf(raw, max), step, max);
    UpAdvancesIff(raw, max, step);
  }

  lemma {:induction false} SamePress(raw: int, max: int, delta: int, n: nat)
    requires max > 0 && Press(raw, max, delta) == raw
    ensures Presses(raw, max, delta, n) == raw
  {
    hide Press;
    if n > 0 {
      SamePress(raw, max, delta, n - 1);
    }
  }

  ghost predicate StaysForever(raw: int, max: int, delta: int)
    requires max > 0
  {
    forall n: nat :: Presses(raw, max, delta, n) == raw
  }

  lemma SamePressForever(raw: int, max: int, delta: int)
    requires max > 0 && Press(raw, max, delta) == raw
    ensures StaysForever(raw, max, delta)
  {
    hide Press;
    forall n: nat ensures Presses(raw, max, delta, n) == raw {
      SamePress(raw, max, delta, n);
    }
  }

  // A panel that "+" does not move once it never moves: it is stuck exactly where it does not climb.
  lemma UpSticksIff(raw: int, max: int, step: int)
    requires 0 <= raw < max && step >= 1
    ensures StaysForever(raw, max, step) <==> !Climbs(raw, max, step)
  {
    hide Press, Climbs;
    UpAdvancesIff(raw, max, step);
    if Climbs(raw, max, step) {
      assert Presses(raw, max, step, 0) == raw;
      assert Presses(raw, max, step, 1) > raw;
    } else {
      SamePressForever(raw, max, step);
    }
  }

  lemma ClampedRaw(pct: int, max: int)
    requires max > 0
    ensures RawFor(pct, max) == RawFor(Clamp(pct), max)
  {}

  lemma PercentRange(raw: int, max: int)
    requires max > 0
    ensures 0 <= PercentOf(raw, max) <= 100
  {}

  // Enough presses of "+" reach full brightness from anywhere.
  lemma {:induction false} UpReachesFull(raw: int, max: int, step: int, n: nat)
    requires 0 <= raw <= max && max > 0 && step >= 1 && (2 * step - 1) * max >= 100
    ensures raw <= Presses(raw, max, step, n) <= max
    ensures Presses(raw, max, step, n) >= raw + n || Presses(raw, max, step, n) == max
  {
    hide Times, Round, RawFor, PercentOf;
    if n > 0 {
      UpReachesFull(raw, max, step, n - 1);
      var before := Presses(raw, max, step, n - 1);
      if before < max {
        UpAdvances(before, max, step);
      } else {
        FullStaysFull(max, step);
      }
    }
  }

  lemma FullStaysFull(max: int, step: int)
    requires max > 0 && step >= 1
    ensures Press(max, max, step) == max
  {
    hide Times, Round, RawFor, PercentOf;
    var p := PercentOf(max, max);
    PercentProperties(max, max);
    PercentRange(max, max);
    if p < 100 {
      TimesMonotone(p, 100, max);
      TimesIs(100, max);
    }
    ClampedRaw(p + step, max);
    RawProperties(100, max);
  }

  // A step of 5 is stuck at raw value 1 of the uConsole's nine.
  lemma SmallStepSticks()
    ensures StaysForever(1, 9, 5)
  {
    UpSticksIff(1, 9, 5);
  }

  // A step of 6 climbs from all of them: nothing sticks there, although (2 * 6 - 1) * 9 is only 99.
  lemma SixClimbsNine(raw: int)
    requires 0 <= raw < 9
    ensures Climbs(raw, 9, 6)
  {
    assert PercentOf(raw, 9) == [0, 11, 22, 33, 44, 56, 67, 78, 89][raw];
  }

  // "-" moves down from a raw value above 1 exactly when the percent to set is more than half way to
  // the one below, and it never moves up.
  lemma DownAdvancesIff(raw: int, max: int, step: int)
    requires 1 < raw <= max && step >= 1
    ensures 0 <= Press(raw, max, -step) <= raw
    ensures Press(raw, max, -step) < raw <==> 2 * Times(PercentOf(raw, max) - step, max) + 100 < 200 * raw
  {
    hide Times, Round, RawFor, PercentOf;
    var p := PercentOf(raw, max);
    PercentProperties(raw, max);
    PercentRange(raw, max);
    ClampedRaw(p - step, max);
    TimesAdd(p, step, max);
    TimesMonotone(0, step, max);
    TimesIs(0, max);
    RawProperties(Clamp(p - step), max);
    if p - step < 0 {
      TimesMonotone(p - step, 0, max);
    }
  }

  // "-" moves down from every raw value above 1 when the step is large enough.
  lemma DownAdvances(raw: int, max: int, step: int)
    requires 1 < raw <= max && step >= 1 && (2 * step - 1) * max > 100
    ensures 0 <= Press(raw, max, -step) < raw
  {
    hide Times, Round, RawFor, PercentOf;
    PercentProperties(raw, max);
    StepProduct(step, max);
    TimesAdd(PercentOf(raw, max), step, max);
    DownAdvancesIff(raw, max, step);
  }

  lemma DownSticksIff(raw: int, max: int, step: int)
    requires 1 < raw <= max && step >= 1
    ensures StaysForever(raw, max, -step) <==> 2 * Times(PercentOf(raw, max) - step, max) + 100 >= 200 * raw
  {
    hide Press, Times, PercentOf;
    DownAdvancesIff(raw, max, step);
    if Press(raw, max, -step) < raw {
      assert Presses(raw, max, -step, 0) == raw;
      assert Presses(raw, max, -step, 1) < raw;
    } else {
      SamePressForever(raw, max, -step);
    }
  }

  // From raw value 1 "-" blanks the panel exactly when the step covers what that value reads as;
  // otherwise it stays at 1.
  lemma DownFromOneIff(max: int, step: int)
    requires max >= 1 && step >= 1
    ensures Press(1, max, -step) == if PercentOf(1, max) <= step then 0 else 1
  {
    hide Times, Round, RawFor, PercentOf;
    var p := PercentOf(1, max);
    PercentProperties(1, max);
    PercentRange(1, max);
    ClampedRaw(p - step, max);
    TimesAdd(p, step, max);
    TimesMonotone(0, step, max);
    TimesIs(0, max);
    RawProperties(Clamp(p - step), max);
  }

  // ----- keys and readings interleaved -----

  // The percent shown, and every raw value the panel has had, the present one last.
  datatype Shown = Shown(percent: int, past: seq<int>)

  // A press, or the arrival of the reading taken when the panel had its k-th raw value.
  datatype Key = Plus | Minus | Landed(k: nat)

  function Delta(key: Key, step: int): int {
    match key
    case Plus => step
    case Minus => -step
    case Landed(_) => 0
  }

  function Wrote(s: Shown, delta: int, max: int): Shown
    requires max > 0
  {
    var target := Clamp(s.percent + delta);
    Shown(target, s.past + [RawFor(target, max)])
  }

  function AfterKeys(raw: int, keys: seq<Key>, max: int, step: int): (s: Shown)
    requires max > 0
    ensures |s.past| == 1 + Writes(keys)
  {
    if keys == [] then Shown(PercentOf(raw, max), [raw])
    else
      var s, key := AfterKeys(raw, keys[..|keys| - 1], max, step), keys[|keys| - 1];
      if !key.Landed? then Wrote(s, Delta(key, step), max)
      else if key.k < |s.past| then s.(percent := PercentOf(s.past[key.k], max))
      else s
  }

  function RawAfter(raw: int, keys: seq<Key>, max: int, step: int): int
    requires max > 0
  {
    var s := AfterKeys(raw, keys, max, step);
    s.past[|s.past| - 1]
  }

  // How many presses.
  function Writes(keys: seq<Key>): nat {
    if keys == [] then 0
    else Writes(keys[..|keys| - 1]) + (if keys[|keys| - 1].Landed? then 0 else 1)
  }

  // Every reading is of the raw value the panel still has when it lands.
  predicate UpToDate(keys: seq<Key>) {
    keys == [] ||
    var pre, last := keys[..|keys| - 1], keys[|keys| - 1];
    UpToDate(pre) && (last.Landed? ==> last.k == Writes(pre))
  }

  predicate EndsInPress(keys: seq<Key>) {
    keys != [] && !keys[|keys| - 1].Landed?
  }

  predicate OnlyUp(keys: seq<Key>) {
    forall i :: 0 <= i < |keys| ==> !keys[i].Minus?
  }

  lemma NoKeys(raw: int, max: int, step: int)
    requires max > 0
    ensures AfterKeys(raw, [], max, step) == Shown(PercentOf(raw, max), [raw])
    ensures Writes([]) == 0
  {}

  lemma PressedKeys(keys: seq<Key>, up: bool, raw: int, max: int, step: int)
    requires max > 0
    ensures var key := if up then Plus else Minus;
            && AfterKeys(raw, keys + [key], max, step) == Wrote(AfterKeys(raw, keys, max, step), Delta(key, step), max)
            && Writes(keys + [key]) == Writes(keys) + 1
            && (UpToDate(keys) ==> UpToDate(keys + [key]))
  {
    var key := if up then Plus else Minus;
    assert (keys + [key])[..|keys|] == keys;
    hide Wrote;
  }

  lemma PressedRaw(keys: seq<Key>, up: bool, raw: int, max: int, step: int)
    requires max > 0
    ensures var key := if up then Plus else Minus;
            RawAfter(raw, keys + [key], max, step) ==
            RawFor(Clamp(AfterKeys(raw, keys, max, step).percent + Delta(key, step)), max)
  {
    PressedKeys(keys, up, raw, max, step);
    hide RawFor, AfterKeys;
  }

  lemma LandedKeys(keys: seq<Key>, k: nat, raw: int, max: int, step: int)
    requires max > 0 && k <= Writes(keys)
    ensures var s := AfterKeys(raw, keys, max, step);
            AfterKeys(raw, keys + [Landed(k)], max, step) == s.(percent := PercentOf(s.past[k], max))
    ensures Writes(keys + [Landed(k)]) == Writes(keys)
    ensures UpToDate(keys) && k == Writes(keys) ==> UpToDate(keys + [Landed(k)])
  {
    assert (keys + [Landed(k)])[..|keys|] == keys;
  }

  lemma LandedRaw(keys: seq<Key>, k: nat, raw: int, max: int, step: int)
    requires max > 0
    ensures RawAfter(raw, keys + [Landed(k)], max, step) == RawAfter(raw, keys, max, step)
  {
    assert (keys + [Landed(k)])[..|keys|] == keys;
    hide PercentOf, RawFor;
  }

  // Whatever happens, the panel stays in its range and the percent in its own.
  lemma {:induction false} KeysInRange(raw: int, keys: seq<Key>, max: int, step: int)
    requires 0 <= raw <= max && max > 0
    ensures var s := AfterKeys(raw, keys, max, step);
            && 0 <= s.percent <= 100 && forall i :: 0 <= i < |s.past| ==> 0 <= s.past[i] <= max
  {
    hide Times, Round, RawFor, PercentOf;
    if keys == [] {
      PercentRange(raw, max);
    } else {
      var pre, key := keys[..|keys| - 1], keys[|keys| - 1];
      KeysInRange(raw, pre, max, step);
      var s := AfterKeys(raw, pre, max, step);
      RawProperties(Clamp(s.percent + Delta(key, step)), max);
      if key.Landed? && key.k < |s.past| {
        PercentRange(s.past[key.k], max);
      }
    }
  }

  lemma RawMonotone(a: int, b: int, max: int)
    requires 0 <= a <= b <= 100 && max > 0
    ensures RawFor(a, max) <= RawFor(b, max)
  {
    hide Times, Round, RawFor, PercentOf;
    RawProperties(a, max);
    RawProperties(b, max);
    if a < b {
      TimesMonotone(a, b, max);
    }
  }

  // A press on a confirmed percent or on one just set: "+" does not move the panel down.
  lemma PressNeverLowers(raw: int, percent: int, max: int, step: int)
    requires 0 <= raw <= max && max > 0 && step >= 1 && 0 <= percent <= 100
    requires percent == PercentOf(raw, max) || raw == RawFor(percent, max)
    ensures raw <= RawFor(Clamp(percent + step), max) <= max
  {
    hide Times, Round, RawFor, PercentOf;
    RawProperties(Clamp(percent + step), max);
    if raw == RawFor(percent, max) {
      RawMonotone(percent, Clamp(percent + step), max);
    } else {
      ClampedRaw(percent + step, max);
      if raw < max {
        UpAdvancesIff(raw, max, step);
      } else {
        FullStaysFull(max, step);
      }
    }
  }

  // And "-" does not move it up.
  lemma PressNeverRaises(raw: int, percent: int, max: int, step: int)
    requires 0 <= raw <= max && max > 0 && step >= 1 && 0 <= percent <= 100
    requires percent == PercentOf(raw, max) || raw == RawFor(percent, max)
    ensures 0 <= RawFor(Clamp(percent - step), max) <= raw
  {
    hide Times, Round, RawFor, PercentOf;
    RawProperties(Clamp(percent - step), max);
    if raw == RawFor(percent, max) {
      RawMonotone(Clamp(percent - step), percent, max);
    } else {
      ClampedRaw(percent - step, max);
      if raw > 1 {
        DownAdvancesIff(raw, max, step);
      } else if raw == 1 {
        DownFromOneIff(max, step);
      } else {
        DarkIsZero(max);
      }
    }
  }

  lemma DarkIsZero(max: int)
    requires max > 0
    ensures PercentOf(0, max) == 0 && RawFor(0, max) == 0
  {
    hide Times, Round, RawFor, PercentOf;
    PercentProperties(0, max);
    PercentRange(0, max);
    TimesIs(0, max);
    if PercentOf(0, max) > 0 {
      TimesMonotone(0, PercentOf(0, max), max);
    }
    RawProperties(0, max);
  }

  // Between readings that are up to date the percent shown and the raw value stay in step.
  lemma {:induction false} KeysInStep(raw: int, keys: seq<Key>, max: int, step: int)
    requires 0 <= raw <= max && max > 0 && step >= 1 && UpToDate(keys)
    ensures var s := AfterKeys(raw, keys, max, step);
            var now := RawAfter(raw, keys, max, step);
            && 0 <= now <= max && 0 <= s.percent <= 100
            && if EndsInPress(keys) then now == RawFor(s.percent, max) else s.percent == PercentOf(now, max)
  {
    hide Times, Round, RawFor, PercentOf;
    KeysInRange(raw, keys, max, step);
    if keys != [] {
      var pre := keys[..|keys| - 1];
      KeysInStep(raw, pre, max, step);
    }
  }

  // While readings are up to date each key moves the brightness its own way or not at all, however
  // small the step, and a reading does not move it.
  lemma KeysMoveTheirWay(raw: int, keys: seq<Key>, key: Key, max: int, step: int)
    requires 0 <= raw <= max && max > 0 && step >= 1 && UpToDate(keys)
    ensures var was, now := RawAfter(raw, keys, max, step), RawAfter(raw, keys + [key], max, step);
            match key
            case Plus => was <= now
            case Minus => now <= was
            case Landed(_) => was == now
  {
    hide Times, Round, RawFor, PercentOf, AfterKeys, RawAfter, UpToDate, Writes;
    KeysInStep(raw, keys, max, step);
    var was, percent := RawAfter(raw, keys, max, step), AfterKeys(raw, keys, max, step).percent;
    match key {
      case Plus =>
        PressNeverLowers(was, percent, max, step);
        PressedRaw(keys, true, raw, max, step);
      case Minus =>
        PressNeverRaises(was, percent, max, step);
        PressedRaw(keys, false, raw, max, step);
      case Landed(k) => LandedRaw(keys, k, raw, max, step);
    }
  }

  ghost predicate AlwaysClimbs(max: int, step: int)
    requires max > 0
  {
    forall raw :: 0 <= raw < max ==> Climbs(raw, max, step)
  }

  // Every press adds to the raw value or to the percent above it, until the panel is at its maximum.
  lemma {:induction false} KeysProgress(raw: int, keys: seq<Key>, max: int, step: int)
    requires 0 <= raw <= max && max > 0 && step >= 1 && UpToDate(keys) && OnlyUp(keys) && AlwaysClimbs(max, step)
    ensures var s, now := AfterKeys(raw, keys, max, step), RawAfter(raw, keys, max, step);
            now == max || 101 * now + (if EndsInPress(keys) then s.percent else 100) >= Writes(keys)
  {
    hide Times, Round, RawFor, PercentOf, Climbs;
    if keys != [] {
      var pre := keys[..|keys| - 1];
      KeysProgress(raw, pre, max, step);
      KeysInStep(raw, pre, max, step);
      var s, was := AfterKeys(raw, pre, max, step), RawAfter(raw, pre, max, step);
      if EndsInPress(keys) {
        assert keys[|keys| - 1].Plus?;
        PressNeverLowers(was, s.percent, max, step);
        RawProperties(100, max);
        if !EndsInPress(pre) && was < max {
          UpAdvancesIff(was, max, step);
          ClampedRaw(s.percent + step, max);
        }
      }
    }
  }

  ghost predicate ReachesFull(max: int, step: int)
    requires max > 0
  {
    forall raw, keys :: 0 <= raw <= max && UpToDate(keys) && OnlyUp(keys) && Writes(keys) >= 101 * max ==>
      RawAfter(raw, keys, max, step) == max
  }

  // Press, read, press, read.
  function Alternating(n: nat): seq<Key> {
    if n == 0 then [] else Alternating(n - 1) + [Plus] + [Landed(n)]
  }

  lemma {:induction false} AlternatingPresses(raw: int, n: nat, max: int, step: int)
    requires max > 0
    ensures UpToDate(Alternating(n)) && Writes(Alternating(n)) == n
    ensures var s := AfterKeys(raw, Alternating(n), max, step);
            && s.past[n] == Presses(raw, max, step, n)
            && s.percent == PercentOf(s.past[n], max)
  {
    hide Round, RawFor, PercentOf;
    if n > 0 {
      AlternatingPresses(raw, n - 1, max, step);
      PressesOnce(raw, n, max, step);
      var pre := Alternating(n - 1);
      assert Alternating(n) == (pre + [Plus]) + [Landed(n)];
      hide *;
      PressedKeys(pre, true, raw, max, step);
      LandedKeys(pre + [Plus], n, raw, max, step);
    }
  }

  lemma {:induction false} AlternatingGoesUp(n: nat)
    ensures OnlyUp(Alternating(n))
  {
    if n > 0 {
      AlternatingGoesUp(n - 1);
    }
  }

  lemma PressesOnce(raw: int, n: nat, max: int, step: int)
    requires max > 0 && n > 0
    ensures Presses(raw, max, step, n) == RawFor(Clamp(PercentOf(Presses(raw, max, step, n - 1), max) + step), max)
  {
    hide Round;
    ClampedRaw(PercentOf(Presses(raw, max, step, n - 1), max) + step, max);
  }

  // Enough presses of "+" reach full brightness from anywhere, whenever up-to-date readings land
  // between them, exactly when the step climbs from every raw value.
  lemma ReachesFullIff(max: int, step: int)
    requires max > 0 && step >= 1
    ensures ReachesFull(max, step) <==> AlwaysClimbs(max, step)
  {
    hide Times, Round, RawFor, PercentOf, Climbs, Press;
    if AlwaysClimbs(max, step) {
      forall raw, keys | 0 <= raw <= max && UpToDate(keys) && OnlyUp(keys) && Writes(keys) >= 101 * max
        ensures RawAfter(raw, keys, max, step) == max
      {
        KeysProgress(raw, keys, max, step);
        KeysInStep(raw, keys, max, step);
      }
    } else {
      var raw :| 0 <= raw < max && !Climbs(raw, max, step);
      UpSticksIff(raw, max, step);
      AlternatingPresses(raw, 101 * max, max, step);
      AlternatingGoesUp(101 * max);
      assert RawAfter(raw, Alternating(101 * max), max, step) == raw;
    }
  }

  // ----- readings that land late -----

  // Where the raw value written for a percent stands against another raw value.
  lemma RawBelowIff(pct: int, now: int, max: int)
    requires 0 < pct <= 100 && max > 0
    ensures RawFor(pct, max) < now <==> now > 1 && 2 * Times(pct, max) + 100 < 200 * now
  {
    hide Times, Round, RawFor;
    RawProperties(pct, max);
  }

  lemma RawAboveIff(pct: int, now: int, max: int)
    requires 0 <= pct <= 100 && max > 0 && now >= 0
    ensures RawFor(pct, max) > now <==> (now == 0 && pct > 0) || 2 * Times(pct, max) >= 200 * now + 100
  {
    hide Times, Round, RawFor;
    RawProperties(pct, max);
    TimesIs(0, max);
  }

  // The percent the next key sets when the reading of the k-th raw value has just landed.
  function Target(s: Shown, k: nat, delta: int, max: int): int
    requires max > 0 && k < |s.past|
  {
    Clamp(PercentOf(s.past[k], max) + delta)
  }

  // After a reading of any moment, whatever came before, "+" lowers the brightness exactly when the
  // percent it sets is less than half way up to the present raw value from the one below.
  lemma LateReadingLowersIff(raw: int, keys: seq<Key>, k: nat, max: int, step: int)
    requires max >= 1 && step >= 1 && k <= Writes(keys)
    ensures var s, now := AfterKeys(raw, keys, max, step), RawAfter(raw, keys, max, step);
            RawAfter(raw, keys + [Landed(k)] + [Plus], max, step) < now <==>
            now > 1 && 2 * Times(Target(s, k, step, max), max) + 100 < 200 * now
  {
    hide Times, Round, RawFor, PercentOf, AfterKeys, RawAfter, Writes;
    LandedKeys(keys, k, raw, max, step);
    PressedRaw(keys + [Landed(k)], true, raw, max, step);
    var s := AfterKeys(raw, keys, max, step);
    PercentRange(s.past[k], max);
    RawBelowIff(Target(s, k, step, max), RawAfter(raw, keys, max, step), max);
  }

  // And "-" raises it exactly when the percent it sets reaches half way to the raw value above, or
  // lights a panel that was dark.
  lemma LateReadingRaisesIff(raw: int, keys: seq<Key>, k: nat, max: int, step: int)
    requires 0 <= raw <= max && max >= 1 && step >= 1 && k <= Writes(keys)
    ensures var s, now := AfterKeys(raw, keys, max, step), RawAfter(raw, keys, max, step);
            var target := Target(s, k, -step, max);
            RawAfter(raw, keys + [Landed(k)] + [Minus], max, step) > now <==>
            (now == 0 && target > 0) || 2 * Times(target, max) >= 200 * now + 100
  {
    KeysInRange(raw, keys, max, step);
    assert RawAfter(raw, keys, max, step) >= 0;
    hide Times, Round, RawFor, PercentOf, AfterKeys, RawAfter, Writes;
    LandedKeys(keys, k, raw, max, step);
    PressedRaw(keys + [Landed(k)], false, raw, max, step);
    RawAboveIff(Target(AfterKeys(raw, keys, max, step), k, -step, max), RawAfter(raw, keys, max, step), max);
  }

  lemma RawStrict(a: int, b: int, max: int)
    requires 0 <= a < b <= 100 && max >= 100
    ensures RawFor(a, max) < RawFor(b, max)
  {
    hide Times, Round, RawFor, PercentOf;
    RawMonotone(a, b, max);
    RoundTrip(a, max);
    RoundTrip(b, max);
  }

  // On a panel of at least 100 steps raw values and percents go together: over a percent just set, a
  // late reading turns a key round exactly when it is more than a step behind.
  lemma LateReadingOnFinePanel(raw: int, keys: seq<Key>, k: nat, max: int, step: int)
    requires 0 <= raw <= max && max >= 100 && step >= 1 && EndsInPress(keys) && k <= Writes(keys)
    ensures var s, now := AfterKeys(raw, keys, max, step), RawAfter(raw, keys, max, step);
            && (RawAfter(raw, keys + [Landed(k)] + [Plus], max, step) < now <==> PercentOf(s.past[k], max) + step < s.percent)
            && (RawAfter(raw, keys + [Landed(k)] + [Minus], max, step) > now <==> s.percent < PercentOf(s.past[k], max) - step)
  {
    KeysInRange(raw, keys, max, step);
    var s := AfterKeys(raw, keys, max, step);
    assert RawAfter(raw, keys, max, step) == RawFor(s.percent, max);
    hide Times, Round, RawFor, PercentOf, AfterKeys, RawAfter, Writes, EndsInPress;
    LandedKeys(keys, k, raw, max, step);
    PressedRaw(keys + [Landed(k)], true, raw, max, step);
    PressedRaw(keys + [Landed(k)], false, raw, max, step);
    PercentRange(s.past[k], max);
    RawsCompare(Target(s, k, step, max), s.percent, max);
    RawsCompare(s.percent, Target(s, k, -step, max), max);
  }

  lemma RawsCompare(a: int, b: int, max: int)
    requires 0 <= a <= 100 && 0 <= b <= 100 && max >= 100
    ensures RawFor(a, max) < RawFor(b, max) <==> a < b
  {
    hide RawFor;
    if a < b {
      RawStrict(a, b, max);
    } else {
      RawMonotone(b, a, max);
    }
  }

  // ----- which panels it happens on -----

  function Repeated(n: nat, key: Key): seq<Key> {
    if n == 0 then [] else Repeated(n - 1, key) + [key]
  }

  // Held down, "+" shows a percent more at least with every press, whatever the raw values are.
  lemma {:induction false} HeldUp(raw: int, n: nat, max: int, step: int)
    requires max > 0 && step >= 1
    ensures var s := AfterKeys(raw, Repeated(n, Plus), max, step);
            && Writes(Repeated(n, Plus)) == n && s.past[0] == raw
            && (if n < 100 then n else 100) <= s.percent <= 100
            && (n >= 100 ==> RawAfter(raw, Repeated(n, Plus), max, step) == RawFor(100, max))
  {
    hide Times, Round, RawFor, PercentOf;
    if n == 0 {
      NoKeys(raw, max, step);
      PercentRange(raw, max);
    } else {
      HeldUp(raw, n - 1, max, step);
      hide AfterKeys, Writes;
      PressedKeys(Repeated(n - 1, Plus), true, raw, max, step);
    }
  }

  // And "-" a percent less at least.
  lemma {:induction false} HeldDown(raw: int, n: nat, max: int, step: int)
    requires max > 0 && step >= 1
    ensures var s := AfterKeys(raw, Repeated(n, Minus), max, step);
            && Writes(Repeated(n, Minus)) == n && s.past[0] == raw
            && 0 <= s.percent <= (if n < 100 then 100 - n else 0)
            && (n >= 100 ==> RawAfter(raw, Repeated(n, Minus), max, step) == RawFor(0, max))
  {
    hide Times, Round, RawFor, PercentOf;
    if n == 0 {
      NoKeys(raw, max, step);
      PercentRange(raw, max);
    } else {
      HeldDown(raw, n - 1, max, step);
      hide AfterKeys, Writes;
      PressedKeys(Repeated(n - 1, Minus), false, raw, max, step);
    }
  }

  ghost predicate LateReadingsLower(max: int, step: int)
    requires max > 0
  {
    exists raw, keys, k: nat :: LateReadingLowersAt(raw, keys, k, max, step)
  }

  ghost predicate LateReadingLowersAt(raw: int, keys: seq<Key>, k: nat, max: int, step: int)
    requires max > 0
  {
    && 0 <= raw <= max && k <= Writes(keys)
    && RawAfter(raw, keys + [Landed(k)] + [Plus], max, step) < RawAfter(raw, keys, max, step)
  }

  // Some late reading makes "+" lower the brightness exactly where one step from dark is short of full
  // brightness: there it takes the reading of a dark panel, landing when the key has been held down.
  lemma LateReadingsLowerIff(max: int, step: int)
    requires max >= 1 && step >= 1
    ensures LateReadingsLower(max, step) <==> RawFor(step, max) < max
  {
    hide Times, Round, RawFor, PercentOf, AfterKeys, RawAfter, Writes;
    ClampedRaw(step, max);
    if raw, keys, k: nat :| LateReadingLowersAt(raw, keys, k, max, step) {
      KeysInRange(raw, keys, max, step);
      LastInRange(raw, keys, max, step);
      LandedKeys(keys, k, raw, max, step);
      PressedRaw(keys + [Landed(k)], true, raw, max, step);
      var p := PercentOf(AfterKeys(raw, keys, max, step).past[k], max);
      PercentRange(AfterKeys(raw, keys, max, step).past[k], max);
      RawMonotone(Clamp(step), Clamp(p + step), max);
    }
    if RawFor(step, max) < max {
      var keys := Repeated(100, Plus);
      HeldUp(0, 100, max, step);
      RawProperties(100, max);
      DarkIsZero(max);
      LandedKeys(keys, 0, 0, max, step);
      PressedRaw(keys + [Landed(0)], true, 0, max, step);
      assert LateReadingLowersAt(0, keys, 0, max, step);
    }
  }

  ghost predicate LateReadingsRaise(max: int, step: int)
    requires max > 0
  {
    exists raw, keys, k: nat :: LateReadingRaisesAt(raw, keys, k, max, step)
  }

  ghost predicate LateReadingRaisesAt(raw: int, keys: seq<Key>, k: nat, max: int, step: int)
    requires max > 0
  {
    && 0 <= raw <= max && k <= Writes(keys)
    && RawAfter(raw, keys + [Landed(k)] + [Minus], max, step) > RawAfter(raw, keys, max, step)
  }

  // Some late reading makes "-" raise it on every panel, unless one step spans the whole range.
  lemma LateReadingsRaiseIff(max: int, step: int)
    requires max >= 1 && step >= 1
    ensures LateReadingsRaise(max, step) <==> step < 100
  {
    hide Times, Round, RawFor, PercentOf, AfterKeys, RawAfter, Writes;
    if raw, keys, k: nat :| LateReadingRaisesAt(raw, keys, k, max, step) {
      KeysInRange(raw, keys, max, step);
      LastInRange(raw, keys, max, step);
      LandedKeys(keys, k, raw, max, step);
      PressedRaw(keys + [Landed(k)], false, raw, max, step);
      PercentRange(AfterKeys(raw, keys, max, step).past[k], max);
      RawProperties(0, max);
    }
    if step < 100 {
      var keys := Repeated(100, Minus);
      HeldDown(max, 100, max, step);
      RawProperties(0, max);
      RawProperties(100 - step, max);
      FullReadsFull(max);
      LandedKeys(keys, 0, max, max, step);
      PressedRaw(keys + [Landed(0)], false, max, max, step);
      assert LateReadingRaisesAt(max, keys, 0, max, step);
    }
  }

  lemma FullReadsFull(max: int)
    requires max > 0
    ensures PercentOf(max, max) == 100
  {
    hide Times, Round, RawFor, PercentOf;
    PercentProperties(max, max);
    PercentRange(max, max);
    TimesIs(100, max);
    if PercentOf(max, max) < 100 {
      TimesMonotone(PercentOf(max, max), 100, max);
    }
  }

  lemma LastInRange(raw: int, keys: seq<Key>, max: int, step: int)
    requires 0 <= raw <= max && max > 0
    ensures 0 <= RawAfter(raw, keys, max, step) <= max
  {
    KeysInRange(raw, keys, max, step);
    hide AfterKeys;
  }

  // From dark, the first n presses show n steps.
  lemma {:induction false} StepsFromDark(n: nat, max: int, step: int)
    requires max > 0 && step >= 1 && Times(n, step) <= 100
    ensures Writes(Repeated(n, Plus)) == n
    ensures AfterKeys(0, Repeated(n, Plus), max, step).percent == Times(n, step)
    ensures n > 0 ==> AfterKeys(0, Repeated(n, Plus), max, step).past[1] == RawFor(step, max)
  {
    hide Round, PercentOf, RawFor;
    if n == 0 {
      DarkIsZero(max);
      NoKeys(0, max, step);
    } else {
      TimesOneMore(n - 1, step);
      hide Times, AfterKeys, Writes;
      StepsFromDark(n - 1, max, step);
      PressedKeys(Repeated(n - 1, Plus), true, 0, max, step);
      NoKeys(0, max, step);
    }
  }

  lemma TimesOneMore(n: nat, step: int)
    requires step >= 1
    ensures Times(n + 1, step) == Times(n, step) + step && 0 <= Times(n, step)
    ensures Times(0, step) == 0
  {}

  lemma RawFromDark(n: nat, max: int, step: int)
    requires max >= 1 && step >= 1 && 1 <= n && Times(n, step) <= 100
    ensures RawAfter(0, Repeated(n, Plus), max, step) == RawFor(Times(n, step), max) && EndsInPress(Repeated(n, Plus))
  {
    TimesIs(0, step);
    TimesMonotone(0, n, step);
    StepsFromDark(n, max, step);
    hide Times, RawFor, PercentOf;
  }

  // It takes no holding down: n presses from dark and the reading taken after the first of them make
  // the next "+" lower the brightness exactly when that reading is short enough of the present value.
  lemma LateReadingLowers(n: nat, max: int, step: int)
    requires max >= 1 && step >= 1 && 1 <= n && Times(n, step) <= 100
    ensures var now, target := RawFor(Times(n, step), max), Clamp(PercentOf(RawFor(step, max), max) + step);
            LateReadingLowersAt(0, Repeated(n, Plus), 1, max, step) <==>
            now > 1 && 2 * Times(target, max) + 100 < 200 * now
  {
    hide Times, Round, RawFor, PercentOf, AfterKeys, RawAfter, Writes, Repeated, Clamp;
    StepsFromDark(n, max, step);
    RawFromDark(n, max, step);
    LateReadingLowersIff(0, Repeated(n, Plus), 1, max, step);
  }

  // On a panel of at least 100 steps three presses always do it.
  lemma ThreePressesOnFinePanel(n: nat, max: int, step: int)
    requires max >= 100 && step >= 1 && 3 <= n && Times(n, step) <= 100
    ensures LateReadingLowersAt(0, Repeated(n, Plus), 1, max, step)
  {
    hide Times, Round, RawFor, PercentOf, AfterKeys, RawAfter, Writes, Repeated, Clamp, EndsInPress;
    StepsFromDark(n, max, step);
    RawFromDark(n, max, step);
    TimesIs(2, step);
    TimesMonotone(2, n, step);
    RoundTrip(step, max);
    LateReadingOnFinePanel(0, Repeated(n, Plus), 1, max, step);
  }

  // With the default step of 10 three presses are enough on the uConsole's nine steps, too.
  lemma ThreePressesOnNine()
    ensures LateReadingLowersAt(0, Repeated(3, Plus), 1, 9, 10)
  {
    TimesIs(3, 10);
    TimesIs(21, 9);
    assert RawFor(10, 9) == 1 && PercentOf(1, 9) == 11 && RawFor(30, 9) == 3;
    hide *;
    LateReadingLowers(3, 9, 10);
  }
}
