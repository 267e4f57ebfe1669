/** Unique sensor labels, internal/probe/cpu.go: repeats get the first free "#2", "#3", ... suffix. */
module TempLabels {
  import opened Decimal

  datatype TempReading = TempReading(name: string, temp: real)

  function Suffixed(base: string, c: nat): string {
    base + "#" + Itoa(c)
  }

  lemma SuffixInjective(base: string, c: nat, d: nat)
    ensures Suffixed(base, c) != base
    ensures Suffixed(base, c) == Suffixed(base, d) ==> c == d
  {
    assert |Suffixed(base, c)| > |base|;
    if Suffixed(base, c) == Suffixed(base, d) {
      assert Itoa(c) == Suffixed(base, c)[|base| + 1..];
      assert Itoa(d) == Suffixed(base, d)[|base| + 1..];
      ItoaInjective(c, d);
    }
  }

  // A label tells its base and its number: it ends in a '#' and digits.
  lemma SuffixTells(base: string, c: nat, other: string, d: nat)
    requires Suffixed(base, c) == Suffixed(other, d)
    ensures base == other && c == d
  {
    var s := Suffixed(base, c);
    assert s[|base|] == s[|other|] == '#';
    assert forall k :: |base| < k < |s| ==> s[k] == Itoa(c)[k - |base| - 1];
    assert forall k :: |other| < k < |s| ==> s[k] == Itoa(d)[k - |other| - 1];
    assert s[..|base|] == base && s[..|other|] == other;
    SuffixInjective(base, c, d);
  }

  // ----- what the relabelling promises -----

  // The label given to a sensor called base when the labels in used are taken.
  ghost predicate Chosen(name: string, base: string, used: set<string>) {
    && name !in used
    && if base !in used then name == base
       else exists c: nat :: FirstFree(c, base, used) && name == Suffixed(base, c)
  }

  ghost predicate FirstFree(c: nat, base: string, used: set<string>) {
    && c >= 2 && Suffixed(base, c) !in used
    && forall d: nat :: 2 <= d < c ==> Suffixed(base, d) in used
  }

  lemma FirstFreeUnique(c: nat, d: nat, base: string, used: set<string>)
    requires FirstFree(c, base, used) && FirstFree(d, base, used)
    ensures c == d
  {
    assert Suffixed(base, c) !in used && Suffixed(base, d) !in used;
  }

  function LabelsBefore(s: seq<TempReading>, i: nat): set<string>
    requires i <= |s|
  {
    set j | 0 <= j < i :: s[j].name
  }

  lemma LabelsOfPrefix(s: seq<TempReading>, t: seq<TempReading>, n: nat)
    requires n <= |s| && n <= |t| && forall j :: 0 <= j < n ==> s[j] == t[j]
    ensures forall i :: 0 <= i <= n ==> LabelsBefore(s, i) == LabelsBefore(t, i)
  {
    forall i | 0 <= i <= n ensures LabelsBefore(s, i) == LabelsBefore(t, i) {
      assert forall j :: 0 <= j < i ==> s[j].name == t[j].name;
    }
  }

  // Same sensors in the same order with the same readings, each label chosen given those before it.
  ghost predicate Relabelled(before: seq<TempReading>, after: seq<TempReading>) {
    && |after| == |before|
    && forall i :: 0 <= i < |after| ==> RelabelledAt(before, after, i)
  }

  ghost predicate RelabelledAt(before: seq<TempReading>, after: seq<TempReading>, i: nat)
    requires i < |after| == |before|
  {
    after[i].temp == before[i].temp && Chosen(after[i].name, before[i].name, LabelsBefore(after, i))
  }

  // ----- the code -----

  method UniqueTempLabels(a: array<TempReading>)
    modifies a
    ensures Relabelled(old(a[..]), a[..])
  {
    var used: set<string> := {};
    for i := 0 to a.Length
      invariant forall j :: i <= j < a.Length ==> a[j] == old(a[j])
      invariant used == LabelsBefore(a[..], i)
      invariant forall j :: 0 <= j < i ==> RelabelledAt(old(a[..]), a[..], j)
    {
      ghost var was := a[..];
      var name := FreeLabel(a[i].name, used);
      used := used + {name};
      a[i] := a[i].(name := name);
      LabelsOfPrefix(a[..], was, i);
      forall j | 0 <= j < i + 1 ensures RelabelledAt(old(a[..]), a[..], j) {
        if j < i {
          assert RelabelledAt(old(a[..]), was, j);
        }
      }
      assert LabelsBefore(a[..], i + 1) == LabelsBefore(a[..], i) + {a[i].name};
    }
  }

  // The inner loop: count up until a suffix is free. It ends because each label tried is another
  // one of the finitely many in use.
  method FreeLabel(base: string, used: set<string>) returns (name: string)
    ensures Chosen(name, base, used)
  {
    name := base;
    var c := 2;
    ghost var tried: set<string> := {};
    while name in used
      invariant c >= 2 && tried <= used
      invariant name == if c == 2 then base else Suffixed(base, c - 1)
      invariant tried == if c == 2 then {} else {base} + set d: nat | 2 <= d < c - 1 :: Suffixed(base, d)
      invariant c > 2 ==> base in used && forall d: nat :: 2 <= d < c - 1 ==> Suffixed(base, d) in used
      decreases used - tried
    {
      assert name !in tried by {
        forall d: nat | 2 <= d < c - 1 ensures Suffixed(base, d) != name {
          SuffixInjective(base, d, c - 1);
        }
        SuffixInjective(base, c - 1, c - 1);
      }
      tried := tried + {name};
      name := Suffixed(base, c);
      c := c + 1;
    }
    if c > 2 {
      assert FirstFree(c - 1, base, used);
    }
  }

  // ----- consequences -----

  lemma PairwiseDistinct(before: seq<TempReading>, after: seq<TempReading>, i: nat, j: nat)
    requires Relabelled(before, after) && i < j < |after|
    ensures after[i].name != after[j].name
  {
    assert RelabelledAt(before, after, j);
    assert after[i].name in LabelsBefore(after, j);
  }

  // The promise leaves no choice: there is one relabelling of a list of sensors.
  lemma {:induction false} RelabellingIsUnique(before: seq<TempReading>, one: seq<TempReading>, two: seq<TempReading>, n: nat)
    requires Relabelled(before, one) && Relabelled(before, two) && n <= |before|
    ensures one[..n] == two[..n]
  {
    if n > 0 {
      var i := n - 1;
      RelabellingIsUnique(before, one, two, i);
      assert RelabelledAt(before, one, i) && RelabelledAt(before, two, i);
      forall j | 0 <= j < i ensures one[j] == two[j] {
        assert one[..i][j] == two[..i][j];
      }
      LabelsOfPrefix(one, two, i);
      var used, base := LabelsBefore(one, i), before[i].name;
      if base in used {
        var c: nat :| FirstFree(c, base, used) && one[i].name == Suffixed(base, c);
        var d: nat :| FirstFree(d, base, used) && two[i].name == Suffixed(base, d);
        FirstFreeUnique(c, d, base, used);
      }
      assert one[..n] == one[..i] + [one[i]] && two[..n] == two[..i] + [two[i]];
    }
  }

  // Labels that are already distinct are left alone.
  lemma DistinctUnchanged(before: seq<TempReading>, after: seq<TempReading>)
    requires Relabelled(before, after)
    requires forall i, j :: 0 <= i < j < |before| ==> before[i].name != before[j].name
    ensures after == before
  {
    assert Relabelled(before, before) by {
      forall i | 0 <= i < |before| ensures RelabelledAt(before, before, i) {}
    }
    RelabellingIsUnique(before, after, before, |before|);
    assert after[..|before|] == after && before[..|before|] == before;
  }

  // ----- the numbers -----

  // How many of the first n sensors are called base.
  function Occurrences(s: seq<TempReading>, base: string, n: nat): nat
    requires n <= |s|
  {
    if n == 0 then 0 else Occurrences(s, base, n - 1) + if s[n - 1].name == base then 1 else 0
  }

  // No sensor is itself called like a suffixed one of the list.
  ghost predicate NoneSuffixed(s: seq<TempReading>) {
    forall i, j: nat, c: nat :: 0 <= i < |s| && j < |s| ==> s[i].name != Suffixed(s[j].name, c)
  }

  lemma {:induction false} LabelsInUse(before: seq<TempReading>, after: seq<TempReading>, m: nat, n: nat)
    requires Relabelled(before, after) && NoneSuffixed(before) && m < |before| && n <= |before|
    ensures var base, k := before[m].name, Occurrences(before, before[m].name, n);
            && (base in LabelsBefore(after, n) <==> k >= 1)
            && forall c: nat :: c >= 2 ==> (Suffixed(base, c) in LabelsBefore(after, n) <==> c <= k)
    decreases n, 0
  {
    if n > 0 {
      var i, base, own := n - 1, before[m].name, before[n - 1].name;
      var k := Occurrences(before, own, n);
      LabelsInUse(before, after, m, i);
      NumberedInOrder(before, after, i);
      assert after[i].name == if k == 1 then own else Suffixed(own, k);
      hide Suffixed;
      assert LabelsBefore(after, n) == LabelsBefore(after, i) + {after[i].name};
      assert forall c: nat :: base != Suffixed(own, c) && own != Suffixed(base, c);
      forall c: nat | c >= 2 && Suffixed(base, c) == Suffixed(own, k) ensures base == own && c == k {
        SuffixTells(base, c, own, k);
      }
    }
  }

  // Unless a sensor is called like a suffixed one, the first keeps its label, and the k-th of the same
  // name is given "#k".
  lemma {:induction false} NumberedInOrder(before: seq<TempReading>, after: seq<TempReading>, i: nat)
    requires Relabelled(before, after) && NoneSuffixed(before) && i < |before|
    ensures var base, k := before[i].name, Occurrences(before, before[i].name, i + 1);
            after[i].name == if k == 1 then base else base + "#" + Itoa(k)
    decreases i, 1
  {
    hide Itoa;
    var base, used := before[i].name, LabelsBefore(after, i);
    LabelsInUse(before, after, i, i);
    assert RelabelledAt(before, after, i);
    if base in used {
      var c: nat :| FirstFree(c, base, used) && after[i].name == Suffixed(base, c);
      var k := Occurrences(before, base, i);
      if c > k + 1 {
        assert Suffixed(base, k + 1) in used;
      }
    }
  }
}
