/** The ignore-list patterns of internal/config/ignore.go: greedy matching of "*" against any run of characters. */
module Glob {
  import opened Strings

  // ----- what a pattern means -----

  // Naive backtracking: a star takes any number of characters.
  ghost predicate Matches(p: string, s: string) {
    if p == "" then s == ""
    else if p[0] == '*' then exists k :: 0 <= k <= |s| && Matches(p[1..], s[k..])
    else s != "" && s[0] == p[0] && Matches(p[1..], s[1..])
  }

  function Stars(p: string): nat {
    if p == "" then 0 else Stars(p[1..]) + (if p[0] == '*' then 1 else 0)
  }

  // The pattern with its stars replaced, left to right.
  function Expand(p: string, fills: seq<string>): string
    requires |fills| == Stars(p)
  {
    if p == "" then ""
    else if p[0] == '*' then fills[0] + Expand(p[1..], fills[1..])
    else [p[0]] + Expand(p[1..], fills)
  }

  ghost predicate SomeExpansion(p: string, s: string) {
    exists fills: seq<string> :: |fills| == Stars(p) && Expand(p, fills) == s
  }

  lemma {:induction false} MatchExpands(p: string, s: string)
    requires Matches(p, s)
    ensures SomeExpansion(p, s)
  {
    hide SomeExpansion;
    if p == "" {
      ExpandsTo(p, [], s);
    } else if p[0] == '*' {
      var k :| 0 <= k <= |s| && Matches(p[1..], s[k..]);
      MatchExpands(p[1..], s[k..]);
      var fills := FillsOf(p[1..], s[k..]);
      assert ([s[..k]] + fills)[1..] == fills;
      assert Expand(p, [s[..k]] + fills) == s[..k] + s[k..] == s;
      ExpandsTo(p, [s[..k]] + fills, s);
    } else {
      MatchExpands(p[1..], s[1..]);
      var fills := FillsOf(p[1..], s[1..]);
      assert Expand(p, fills) == s;
      ExpandsTo(p, fills, s);
    }
  }

  lemma ExpandsTo(p: string, fills: seq<string>, s: string)
    requires |fills| == Stars(p) && Expand(p, fills) == s
    ensures SomeExpansion(p, s)
  {}

  lemma FillsOf(p: string, s: string) returns (fills: seq<string>)
    requires SomeExpansion(p, s)
    ensures |fills| == Stars(p) && Expand(p, fills) == s
  {
    fills :| |fills| == Stars(p) && Expand(p, fills) == s;
  }

  lemma {:induction false} ExpansionMatches(p: string, fills: seq<string>)
    requires |fills| == Stars(p)
    ensures Matches(p, Expand(p, fills))
  {
    if p != "" {
      var s := Expand(p, fills);
      if p[0] == '*' {
        var k := |fills[0]|;
        assert s[k..] == Expand(p[1..], fills[1..]);
        ExpansionMatches(p[1..], fills[1..]);
      } else {
        assert s[1..] == Expand(p[1..], fills);
        ExpansionMatches(p[1..], fills);
      }
    }
  }

  // Both readings of a pattern agree: s matches iff it is the pattern with each star replaced by some string.
  lemma MatchesIsExpansion(p: string, s: string)
    ensures Matches(p, s) <==> SomeExpansion(p, s)
  {
    hide *;
    if Matches(p, s) {
      MatchExpands(p, s);
    }
    if SomeExpansion(p, s) {
      var fills := FillsOf(p, s);
      ExpansionMatches(p, fills);
    }
  }

  // ----- the matcher -----

  method GlobMatch(pattern: string, s: string) returns (ok: bool)
    ensures ok <==> Matches(pattern, s)
  {
    hide *;
    var parts := Split(pattern, '*');
    MatchesParts(pattern, s);
    if |parts| == 1 {
      OnePart(pattern, s);
      return pattern == s;
    }
    var first, last := parts[0], parts[|parts| - 1];
    if !(first <= s) {
      if Sequence(parts, s) {
        FirstPartLeads(parts, s);
      }
      return false;
    }
    var rest := s[|first|..];
    FloatsAfter(parts, s);
    var m := 1;
    while m < |parts| - 1
      invariant 1 <= m <= |parts| - 1
      invariant Matches(pattern, s) <==> Floats(parts[m..], rest)
    {
      var mid := parts[m];
      var i := Index(rest, mid);
      assert parts[m..][1..] == parts[m + 1..];
      GreedyStep(parts[m..], rest);
      if i < 0 {
        return false;
      }
      rest := rest[i + |mid|..];
      m := m + 1;
    }
    assert parts[m..] == [last];
    FloatsLast(last, rest);
    return HasSuffix(rest, last);
  }

  lemma OnePart(p: string, s: string)
    requires |Split(p, '*')| == 1
    ensures Sequence(Split(p, '*'), s) <==> p == s
  {
    SplitPieces(p, '*');
  }

  lemma FirstPartLeads(parts: seq<string>, s: string)
    requires parts != [] && Sequence(parts, s)
    ensures parts[0] <= s
  {}

  // ----- soundness and completeness of the greedy search -----

  // s is parts[0], then anything, then parts[1], and so on, with nothing around them.
  ghost predicate Sequence(parts: seq<string>, s: string)
    requires parts != []
    decreases |parts|
  {
    if |parts| == 1 then s == parts[0]
    else parts[0] <= s && exists k :: |parts[0]| <= k <= |s| && Sequence(parts[1..], s[k..])
  }

  // The same with anything in front.
  ghost predicate Floats(parts: seq<string>, s: string)
    requires parts != []
  {
    exists k :: 0 <= k <= |s| && Sequence(parts, s[k..])
  }

  lemma {:induction false} MatchesParts(p: string, s: string)
    ensures Matches(p, s) <==> Sequence(Split(p, '*'), s)
  {
    if p != "" {
      var parts, rest := Split(p, '*'), Split(p[1..], '*');
      if p[0] == '*' {
        assert parts[1..] == rest;
        forall k | 0 <= k <= |s| ensures Matches(p[1..], s[k..]) <==> Sequence(rest, s[k..]) {
          MatchesParts(p[1..], s[k..]);
        }
      } else {
        PrependChar(p[0], rest, s);
        if s != "" {
          MatchesParts(p[1..], s[1..]);
        }
      }
    }
  }

  lemma PrependChar(c: char, parts: seq<string>, s: string)
    requires parts != []
    ensures Sequence([[c] + parts[0]] + parts[1..], s) <==> s != "" && s[0] == c && Sequence(parts, s[1..])
  {
    var longer := [[c] + parts[0]] + parts[1..];
    if |parts| > 1 {
      assert longer[1..] == parts[1..];
      if Sequence(longer, s) {
        var k :| |longer[0]| <= k <= |s| && Sequence(parts[1..], s[k..]);
        assert s[1..][k - 1..] == s[k..];
        assert forall i :: 0 <= i < |parts[0]| ==> s[1..][i] == longer[0][i + 1];
      }
      if s != "" && s[0] == c && Sequence(parts, s[1..]) {
        var k :| |parts[0]| <= k <= |s[1..]| && Sequence(parts[1..], s[1..][k..]);
        assert s[1..][k..] == s[k + 1..];
        assert |longer[0]| <= k + 1 <= |s|;
      }
    } else if s != "" {
      assert s == [s[0]] + s[1..];
    }
  }

  lemma FloatsAfter(parts: seq<string>, s: string)
    requires |parts| >= 2 && parts[0] <= s
    ensures Sequence(parts, s) <==> Floats(parts[1..], s[|parts[0]|..])
  {
    var n := |parts[0]|;
    forall k | n <= k <= |s| ensures s[n..][k - n..] == s[k..] {}
    if Floats(parts[1..], s[n..]) {
      var j :| 0 <= j <= |s[n..]| && Sequence(parts[1..], s[n..][j..]);
      assert Sequence(parts[1..], s[j + n..]);
    }
  }

  // Taking the leftmost occurrence of a middle part loses no match and invents none.
  lemma GreedyStep(parts: seq<string>, s: string)
    requires |parts| >= 2
    ensures var i := Index(s, parts[0]);
            Floats(parts, s) <==> i >= 0 && Floats(parts[1..], s[i + |parts[0]|..])
  {
    hide *;
    var i := Index(s, parts[0]);
    if Floats(parts, s) {
      GreedyComplete(parts, s);
    }
    if i >= 0 && Floats(parts[1..], s[i + |parts[0]|..]) {
      GreedySound(parts, s, i);
    }
  }

  lemma GreedySound(parts: seq<string>, s: string, i: nat)
    requires |parts| >= 2 && i + |parts[0]| <= |s| && s[i..i + |parts[0]|] == parts[0]
    requires Floats(parts[1..], s[i + |parts[0]|..])
    ensures Floats(parts, s)
  {
    var tail := s[i..];
    assert tail[|parts[0]|..] == s[i + |parts[0]|..];
    assert tail[..|parts[0]|] == s[i..i + |parts[0]|];
    FloatsAfter(parts, tail);
  }

  lemma GreedyComplete(parts: seq<string>, s: string)
    requires |parts| >= 2 && Floats(parts, s)
    ensures Index(s, parts[0]) >= 0
    ensures Floats(parts[1..], s[Index(s, parts[0]) + |parts[0]|..])
  {
    var k :| 0 <= k <= |s| && Sequence(parts, s[k..]);
    var tail := s[k..];
    assert parts[0] <= tail;
    LeftmostLeavesMore(s, parts[0], k);
    FloatsAfter(parts, tail);
    FloatsEarlier(parts[1..], s[Index(s, parts[0]) + |parts[0]|..], tail[|parts[0]|..]);
  }

  lemma LeftmostLeavesMore(s: string, sub: string, k: nat)
    requires k <= |s| && sub <= s[k..]
    ensures 0 <= Index(s, sub) <= k
    ensures HasSuffix(s[Index(s, sub) + |sub|..], s[k..][|sub|..])
  {
    var i := Index(s, sub);
    assert s[k..k + |sub|] == sub;
    IndexIsFirst(s, sub, k);
    assert s[k..][|sub|..] == s[i + |sub|..][k - i..];
  }

  lemma FloatsEarlier(parts: seq<string>, s: string, tail: string)
    requires parts != [] && HasSuffix(s, tail) && Floats(parts, tail)
    ensures Floats(parts, s)
  {
    var k :| 0 <= k <= |tail| && Sequence(parts, tail[k..]);
    assert s[|s| - |tail| + k..] == tail[k..];
  }

  lemma FloatsLast(last: string, s: string)
    ensures Floats([last], s) <==> HasSuffix(s, last)
  {
    if HasSuffix(s, last) {
      assert Sequence([last], s[|s| - |last|..]);
    }
  }
}
