/**
Clipping styled text to a width: ansiSafeTruncate and hardClipLinesToWidth of internal/ui/table.go.

Text is bytes. How wide a rune is on the terminal is decided elsewhere and is a parameter; every result
holds for every width function. `Tokens` says what the units of such a text are, and the lemmas say what
the one-pass truncation means for them.
*/
module Ansi {
  import opened Strings

  type byte = b: int | 0 <= b < 256
  type Width = seq<byte> -> nat

  const ESC: byte := 0x1B
  const BEL: byte := 0x07
  const CSI: byte := 0x5B
  const OSC: byte := 0x5D
  const BACKSLASH: byte := 0x5C
  const NEWLINE: byte := 0x0A

  // ----- runes: UTF-8 as section 4 of RFC 3629 defines it -----

  predicate IsTail(b: byte) {
    0x80 <= b <= 0xBF
  }

  predicate MayFollow(first: byte, second: byte) {
    if first == 0xE0 then 0xA0 <= second <= 0xBF
    else if first == 0xED then 0x80 <= second <= 0x9F
    else if first == 0xF0 then 0x90 <= second <= 0xBF
    else if first == 0xF4 then 0x80 <= second <= 0x8F
    else 0xC2 <= first <= 0xF3 && IsTail(second)
  }

  // The length of the rune s starts with; 0 where s starts with no valid encoding.
  function RuneLen(s: seq<byte>): (n: nat)
    requires s != []
    ensures n <= |s|
  {
    if s[0] < 0x80 then 1
    else if |s| < 2 || !MayFollow(s[0], s[1]) then 0
    else if s[0] < 0xE0 then 2
    else if |s| < 3 || !IsTail(s[2]) then 0
    else if s[0] < 0xF0 then 3
    else if |s| < 4 || !IsTail(s[3]) then 0
    else 4
  }

  // ----- tokens -----

  predicate IsFinal(b: byte) {
    0x40 <= b <= 0x7E
  }

  // The rest of a CSI sequence: up to its final byte, or all of s.
  function CsiLen(s: seq<byte>): (n: nat)
    ensures n <= |s|
  {
    if s == [] then 0 else if IsFinal(s[0]) then 1 else 1 + CsiLen(s[1..])
  }

  predicate StartsST(s: seq<byte>) {
    |s| >= 2 && s[0] == ESC && s[1] == BACKSLASH
  }

  // The rest of an OSC sequence: up to BEL or ESC \, or all of s.
  function OscLen(s: seq<byte>): (n: nat)
    ensures n <= |s|
  {
    if s == [] then 0
    else if s[0] == BEL then 1
    else if StartsST(s) then 2
    else 1 + OscLen(s[1..])
  }

  function EscapeLen(s: seq<byte>): (n: nat)
    requires s != []
    ensures 1 <= n <= |s|
  {
    if |s| == 1 then 1
    else if s[1] == CSI then 2 + CsiLen(s[2..])
    else if s[1] == OSC then 2 + OscLen(s[2..])
    else 2
  }

  function TokenLen(s: seq<byte>): (n: nat)
    requires s != []
    ensures 1 <= n <= |s|
  {
    if s[0] == ESC then EscapeLen(s) else if RuneLen(s) == 0 then 1 else RuneLen(s)
  }

  function Tokens(s: seq<byte>): seq<seq<byte>> {
    if s == [] then [] else [s[..TokenLen(s)]] + Tokens(s[TokenLen(s)..])
  }

  datatype Kind = Escape | Rune | Bad

  function KindOf(t: seq<byte>): Kind
    requires t != []
  {
    if t[0] == ESC then Escape else if RuneLen(t) == 0 then Bad else Rune
  }

  predicate NoneEmpty(ts: seq<seq<byte>>) {
    forall i :: 0 <= i < |ts| ==> ts[i] != []
  }

  function Concat(ts: seq<seq<byte>>): seq<byte> {
    if ts == [] then [] else ts[0] + Concat(ts[1..])
  }

  // The width on the terminal: runes count, escapes and bad bytes do not.
  function WidthOf(width: Width, ts: seq<seq<byte>>): nat
    requires NoneEmpty(ts)
  {
    if ts == [] then 0 else (if KindOf(ts[0]) == Rune then width(ts[0]) else 0) + WidthOf(width, ts[1..])
  }

  function Good(ts: seq<seq<byte>>): (r: seq<seq<byte>>)
    requires NoneEmpty(ts)
    ensures NoneEmpty(r)
  {
    if ts == [] then [] else (if KindOf(ts[0]) == Bad then [] else [ts[0]]) + Good(ts[1..])
  }

  lemma {:induction false} TokensPartition(s: seq<byte>)
    ensures NoneEmpty(Tokens(s)) && Concat(Tokens(s)) == s
    decreases |s|
  {
    hide TokenLen;
    if s != [] {
      var n := TokenLen(s);
      TokensPartition(s[n..]);
      assert Tokens(s)[1..] == Tokens(s[n..]);
      assert s[..n] + s[n..] == s;
    }
  }

  // ----- tokens stand on their own -----

  // The token ends where it does whatever follows it.
  predicate Closed(t: seq<byte>) {
    t != [] &&
    (t[0] == ESC ==>
       && |t| >= 2
       && (t[1] == CSI ==> CsiClosed(t[2..]))
       && (t[1] == OSC ==> OscClosed(t[2..])))
  }

  predicate CsiClosed(s: seq<byte>) {
    s != [] && (IsFinal(s[0]) || CsiClosed(s[1..]))
  }

  predicate OscClosed(s: seq<byte>) {
    s != [] && (s[0] == BEL || StartsST(s) || OscClosed(s[1..]))
  }

  lemma {:induction false} CsiStands(s: seq<byte>, rest: seq<byte>)
    ensures CsiLen(s[..CsiLen(s)]) == CsiLen(s)
    ensures CsiClosed(s[..CsiLen(s)]) || CsiLen(s) == |s|
    ensures CsiClosed(s) ==> CsiLen(s + rest) == CsiLen(s)
    decreases |s|
  {
    if s != [] {
      assert (s + rest)[1..] == s[1..] + rest;
      assert !IsFinal(s[0]) ==> s[..CsiLen(s)][1..] == s[1..][..CsiLen(s[1..])];
      CsiStands(s[1..], rest);
    }
  }

  lemma {:induction false} OscStands(s: seq<byte>, rest: seq<byte>)
    ensures OscLen(s[..OscLen(s)]) == OscLen(s)
    ensures OscClosed(s[..OscLen(s)]) || OscLen(s) == |s|
    ensures OscClosed(s) ==> OscLen(s + rest) == OscLen(s)
    decreases |s|
  {
    if s != [] {
      assert (s + rest)[1..] == s[1..] + rest;
      assert s[0] != BEL && !StartsST(s) ==> s[..OscLen(s)][1..] == s[1..][..OscLen(s[1..])];
      OscStands(s[1..], rest);
    }
  }

  // A unit: text that is one token.
  predicate IsToken(t: seq<byte>) {
    t != [] && TokenLen(t) == |t|
  }

  lemma EscapeStands(s: seq<byte>, rest: seq<byte>)
    requires s != [] && s[0] == ESC
    ensures IsToken(s[..TokenLen(s)])
    ensures Closed(s[..TokenLen(s)]) || TokenLen(s) == |s|
    ensures Closed(s) ==> TokenLen(s + rest) == TokenLen(s)
  {
    var t := s[..TokenLen(s)];
    if |s| >= 2 {
      CsiStands(s[2..], rest);
      OscStands(s[2..], rest);
      assert (s + rest)[2..] == s[2..] + rest;
      assert t[2..] == s[2..][..TokenLen(s) - 2];
    }
  }

  lemma RuneStands(s: seq<byte>, rest: seq<byte>)
    requires s != [] && s[0] != ESC
    ensures IsToken(s[..TokenLen(s)]) && Closed(s[..TokenLen(s)])
    ensures KindOf(s[..TokenLen(s)]) == KindOf(s)
    ensures RuneLen(s) == |s| || (RuneLen(s) == 0 && |s| == 1 && rest == []) ==> TokenLen(s + rest) == TokenLen(s)
  {}

  // Where a text begins with a token, cutting the token off leaves a token; and unless the text ends
  // inside an escape, more text does not change it.
  lemma TokenStands(s: seq<byte>, rest: seq<byte>)
    requires s != []
    ensures IsToken(s[..TokenLen(s)])
    ensures Closed(s[..TokenLen(s)]) || TokenLen(s) == |s|
    ensures IsToken(s) && KindOf(s) != Bad && (Closed(s) || rest == []) ==> TokenLen(s + rest) == |s|
  {
    hide RuneLen, EscapeLen, CsiLen, OscLen;
    if s[0] == ESC {
      EscapeStands(s, rest);
      assert rest == [] ==> s + rest == s;
    } else {
      RuneStands(s, rest);
    }
  }

  // Tokens in a row that none runs into the next: all closed but perhaps the last.
  ghost predicate Standing(ts: seq<seq<byte>>) {
    forall i :: 0 <= i < |ts| ==> IsToken(ts[i]) && (i < |ts| - 1 ==> Closed(ts[i]))
  }

  lemma {:induction false} TokensStand(s: seq<byte>)
    ensures Standing(Tokens(s))
    decreases |s|
  {
    hide TokenLen, Closed;
    if s != [] {
      var n := TokenLen(s);
      TokensStand(s[n..]);
      TokenStands(s, []);
    }
  }

  // Putting such tokens together and taking the text apart again gives the tokens back.
  lemma {:induction false} TokensOfConcat(ts: seq<seq<byte>>)
    requires Standing(ts) && NoneEmpty(ts) && forall i :: 0 <= i < |ts| ==> KindOf(ts[i]) != Bad
    ensures Tokens(Concat(ts)) == ts
  {
    hide TokenLen, Closed, KindOf;
    if ts != [] {
      var t, rest := ts[0], Concat(ts[1..]);
      TokensOfConcat(ts[1..]);
      TokenStands(t, rest);
      assert (t + rest)[..|t|] == t && (t + rest)[|t|..] == rest;
    }
  }

  // ----- truncation -----

  // The tokens kept: bad bytes are skipped, and the first rune that does not fit ends the text.
  function Clip(width: Width, ts: seq<seq<byte>>, budget: nat): seq<seq<byte>>
    requires NoneEmpty(ts)
  {
    if ts == [] then []
    else match KindOf(ts[0])
      case Escape => [ts[0]] + Clip(width, ts[1..], budget)
      case Bad => Clip(width, ts[1..], budget)
      case Rune =>
        if width(ts[0]) > budget then [] else [ts[0]] + Clip(width, ts[1..], budget - width(ts[0]))
  }

  function Truncate(width: Width, s: seq<byte>, maxWidth: int): seq<byte> {
    if maxWidth <= 0 then []
    else
      TokensPartition(s);
      Concat(Clip(width, Tokens(s), maxWidth))
  }

  // k tokens fit, and one more would not because it is a rune too wide.
  ghost predicate IsCut(width: Width, ts: seq<seq<byte>>, budget: nat, k: nat)
    requires NoneEmpty(ts)
  {
    && k <= |ts| && WidthOf(width, ts[..k]) <= budget
    && (k < |ts| ==> KindOf(ts[k]) == Rune && WidthOf(width, ts[..k]) + width(ts[k]) > budget)
  }

  lemma {:induction false} ClipIsCut(width: Width, ts: seq<seq<byte>>, budget: nat) returns (k: nat)
    requires NoneEmpty(ts)
    ensures IsCut(width, ts, budget, k) && Clip(width, ts, budget) == Good(ts[..k])
    decreases |ts|
  {
    hide KindOf;
    k := 0;
    if ts != [] {
      var w := if KindOf(ts[0]) == Rune then width(ts[0]) else 0;
      if w <= budget {
        var j := ClipIsCut(width, ts[1..], budget - w);
        k := j + 1;
        assert ts[..k][1..] == ts[1..][..j];
      }
    }
  }

  lemma {:induction false} ClipIsGood(width: Width, ts: seq<seq<byte>>, budget: nat)
    requires NoneEmpty(ts)
    ensures var r := Clip(width, ts, budget);
            && NoneEmpty(r) && WidthOf(width, r) <= budget
            && (forall i :: 0 <= i < |r| ==> KindOf(r[i]) != Bad)
            && (Standing(ts) ==> Standing(r))
    decreases |ts|
  {
    hide KindOf, IsToken, Closed;
    if ts != [] {
      var w := if KindOf(ts[0]) == Rune then width(ts[0]) else 0;
      if w <= budget {
        ClipIsGood(width, ts[1..], budget - w);
      }
      if |ts| == 1 {
        assert Clip(width, ts[1..], 0) == [];
      }
    }
  }

  // The units of the result are units of the input, whole and in order: no escape sequence is cut.
  // They are all that fit.
  lemma TruncateKeepsWholeTokens(width: Width, s: seq<byte>, maxWidth: int) returns (k: nat)
    requires maxWidth > 0
    ensures NoneEmpty(Tokens(s)) && IsCut(width, Tokens(s), maxWidth, k)
    ensures Tokens(Truncate(width, s, maxWidth)) == Good(Tokens(s)[..k])
  {
    TokensPartition(s);
    k := ClipIsCut(width, Tokens(s), maxWidth);
    TokensOfTruncated(width, s, maxWidth);
  }

  lemma TokensOfTruncated(width: Width, s: seq<byte>, maxWidth: int)
    requires maxWidth > 0
    ensures NoneEmpty(Tokens(s))
    ensures Tokens(Truncate(width, s, maxWidth)) == Clip(width, Tokens(s), maxWidth)
  {
    hide Tokens, Clip;
    TokensPartition(s);
    TokensStand(s);
    ClipIsGood(width, Tokens(s), maxWidth);
    TokensOfConcat(Clip(width, Tokens(s), maxWidth));
  }

  lemma TruncateFits(width: Width, s: seq<byte>, maxWidth: int)
    ensures var r := Tokens(Truncate(width, s, maxWidth));
            NoneEmpty(r) && WidthOf(width, r) <= if maxWidth > 0 then maxWidth else 0
  {
    if maxWidth > 0 {
      TokensOfTruncated(width, s, maxWidth);
      ClipIsGood(width, Tokens(s), maxWidth);
    }
  }

  lemma {:induction false} ClipTwice(width: Width, ts: seq<seq<byte>>, m: nat, n: nat)
    requires NoneEmpty(ts)
    ensures NoneEmpty(Clip(width, ts, m))
    ensures Clip(width, Clip(width, ts, m), n) == Clip(width, ts, if m < n then m else n)
    decreases |ts|
  {
    hide KindOf, Standing, WidthOf;
    ClipIsGood(width, ts, m);
    if ts != [] {
      var w := if KindOf(ts[0]) == Rune then width(ts[0]) else 0;
      if w <= m {
        ClipTwice(width, ts[1..], m - w, if w <= n then n - w else 0);
      }
    }
  }

  // Truncating again to any width is truncating once to the smaller one; to the same width it changes nothing.
  lemma TruncateTwice(width: Width, s: seq<byte>, m: int, n: int)
    ensures Truncate(width, Truncate(width, s, m), n) == Truncate(width, s, if m < n then m else n)
  {
    if m > 0 && n > 0 {
      TokensOfTruncated(width, s, m);
      ClipTwice(width, Tokens(s), m, n);
    }
  }

  // A text comes through as it is exactly when it fits and holds no bad byte.
  lemma UnchangedIff(width: Width, s: seq<byte>, maxWidth: int)
    requires maxWidth > 0
    ensures NoneEmpty(Tokens(s))
    ensures Truncate(width, s, maxWidth) == s <==>
            WidthOf(width, Tokens(s)) <= maxWidth && forall i :: 0 <= i < |Tokens(s)| ==> KindOf(Tokens(s)[i]) != Bad
  {
    hide Tokens, Clip, WidthOf, KindOf, Standing;
    TokensPartition(s);
    TokensOfTruncated(width, s, maxWidth);
    ClipIsGood(width, Tokens(s), maxWidth);
    ClipOfFitting(width, Tokens(s), maxWidth);
  }

  lemma {:induction false} ClipOfFitting(width: Width, ts: seq<seq<byte>>, budget: nat)
    requires NoneEmpty(ts)
    ensures WidthOf(width, ts) <= budget && (forall i :: 0 <= i < |ts| ==> KindOf(ts[i]) != Bad) ==>
              Clip(width, ts, budget) == ts
    decreases |ts|
  {
    hide KindOf;
    if ts != [] && KindOf(ts[0]) != Bad && WidthOf(width, ts) <= budget {
      ClipOfFitting(width, ts[1..], if KindOf(ts[0]) == Rune then budget - width(ts[0]) else budget);
    }
  }

  // ----- the lines of a block -----

  lemma {:induction false} ClipAddsNothing(width: Width, ts: seq<seq<byte>>, budget: nat, b: byte)
    requires NoneEmpty(ts) && b in Concat(Clip(width, ts, budget))
    ensures b in Concat(ts)
    decreases |ts|
  {
    hide KindOf;
    if ts != [] && b !in ts[0] {
      var w := if KindOf(ts[0]) == Rune then width(ts[0]) else 0;
      if w <= budget {
        ClipAddsNothing(width, ts[1..], budget - w, b);
      }
    }
  }

  lemma TruncateStaysInLine(width: Width, s: seq<byte>, maxWidth: int)
    requires NEWLINE !in s
    ensures NEWLINE !in Truncate(width, s, maxWidth)
  {
    if NEWLINE in Truncate(width, s, maxWidth) {
      TokensPartition(s);
      ClipAddsNothing(width, Tokens(s), maxWidth, NEWLINE);
    }
  }

  function TruncateAll(width: Width, lines: seq<seq<byte>>, w: int): (r: seq<seq<byte>>)
    ensures |r| == |lines|
  {
    seq(|lines|, i requires 0 <= i < |lines| => Truncate(width, lines[i], w))
  }

  function HardClip(width: Width, s: seq<byte>, w: int): seq<byte> {
    if w <= 0 then s else Join(TruncateAll(width, Split(s, NEWLINE), w), NEWLINE)
  }

  // As many lines as before, each the truncation of its own, and none wider than w.
  lemma HardClipBoundsEveryLine(width: Width, s: seq<byte>, w: int)
    requires w > 0
    ensures Split(HardClip(width, s, w), 0x0A) == TruncateAll(width, Split(s, 0x0A), w)
    ensures forall line :: line in Split(HardClip(width, s, w), 0x0A) ==>
              NoneEmpty(Tokens(line)) && WidthOf(width, Tokens(line)) <= w
  {
    hide Truncate, Split, Join;
    var lines := Split(s, NEWLINE);
    var clipped := TruncateAll(width, lines, w);
    SplitPieces(s, NEWLINE);
    forall i | 0 <= i < |lines| ensures NEWLINE !in clipped[i] {
      TruncateStaysInLine(width, lines[i], w);
    }
    SplitJoin(clipped, NEWLINE);
    forall line | line in clipped ensures NoneEmpty(Tokens(line)) && WidthOf(width, Tokens(line)) <= w {
      var i :| 0 <= i < |clipped| && clipped[i] == line;
      TruncateFits(width, lines[i], w);
    }
  }

  lemma HardClipTwice(width: Width, s: seq<byte>, w: int)
    ensures HardClip(width, HardClip(width, s, w), w) == HardClip(width, s, w)
  {
    hide Truncate, Split, Join;
    if w > 0 {
      HardClipBoundsEveryLine(width, s, w);
      var lines := Split(s, NEWLINE);
      forall i | 0 <= i < |lines| ensures Truncate(width, Truncate(width, lines[i], w), w) == Truncate(width, lines[i], w) {
        TruncateTwice(width, lines[i], w, w);
      }
      assert TruncateAll(width, TruncateAll(width, lines, w), w) == TruncateAll(width, lines, w);
    }
  }

  // ----- in bytes: what text with styles is, without tokens -----

  // A Unicode scalar value.
  predicate IsScalar(cp: int) {
    0 <= cp < 0xD800 || 0xE000 <= cp <= 0x10FFFF
  }

  // Its UTF-8 encoding (section 3 of RFC 3629).
  function Encode(cp: int): (s: seq<byte>)
    requires IsScalar(cp)
    ensures 1 <= |s| <= 4
  {
    if cp < 0x80 then [cp]
    else if cp < 0x800 then [0xC0 + cp / 0x40, 0x80 + cp % 0x40]
    else if cp < 0x10000 then [0xE0 + cp / 0x1000, 0x80 + cp / 0x40 % 0x40, 0x80 + cp % 0x40]
    else [0xF0 + cp / 0x40000, 0x80 + cp / 0x1000 % 0x40, 0x80 + cp / 0x40 % 0x40, 0x80 + cp % 0x40]
  }

  lemma EncodingIsRune(cp: int, rest: seq<byte>)
    requires IsScalar(cp)
    ensures RuneLen(Encode(cp) + rest) == |Encode(cp)| == RuneLen(Encode(cp))
  {
    var e := Encode(cp);
    var s := e + rest;
    assert forall i :: 0 <= i < |e| ==> s[i] == e[i];
    if 0x800 <= cp < 0x10000 {
      assert cp / 0x1000 * 0x40 + cp / 0x40 % 0x40 == cp / 0x40;
    } else if cp >= 0x10000 {
      assert cp / 0x40000 * 0x40 + cp / 0x1000 % 0x40 == cp / 0x1000;
    }
  }

  lemma SixBitDigits(x: nat, y: nat, z: nat, w: nat)
    requires y < 0x40 && z < 0x40 && w < 0x40
    ensures var cp := x * 0x40000 + y * 0x1000 + z * 0x40 + w;
            && cp / 0x40000 == x && cp / 0x1000 % 0x40 == y && cp / 0x40 % 0x40 == z && cp % 0x40 == w
            && cp / 0x1000 == x * 0x40 + y
  {
    var cp := x * 0x40000 + y * 0x1000 + z * 0x40 + w;
    assert cp / 0x40 == x * 0x1000 + y * 0x40 + z;
    assert cp / 0x1000 == x * 0x40 + y;
  }

  // Where a rune is found, it is the encoding of a scalar value.
  lemma RuneIsEncoding(s: seq<byte>) returns (cp: int)
    requires s != [] && RuneLen(s) != 0
    ensures IsScalar(cp) && s[..RuneLen(s)] == Encode(cp)
  {
    var n := RuneLen(s);
    var a: int := s[0];
    if n == 1 {
      cp := a;
      return;
    }
    var b: int := s[1];
    if n == 2 {
      cp := (a - 0xC0) * 0x40 + (b - 0x80);
      return;
    }
    var c: int := s[2];
    if n == 3 {
      cp := (a - 0xE0) * 0x1000 + (b - 0x80) * 0x40 + (c - 0x80);
      SixBitDigits(0, a - 0xE0, b - 0x80, c - 0x80);
      return;
    }
    var d: int := s[3];
    cp := (a - 0xF0) * 0x40000 + (b - 0x80) * 0x1000 + (c - 0x80) * 0x40 + (d - 0x80);
    SixBitDigits(a - 0xF0, b - 0x80, c - 0x80, d - 0x80);
  }

  // A character; ESC [ with its parameters and final byte; ESC ] with its text and BEL or ESC \; ESC and
  // one byte more.
  datatype Piece = Glyph(cp: int) | Csi(body: seq<byte>, final: byte) | Osc(body: seq<byte>, bell: bool) | Short(b: byte)

  predicate IsPiece(p: Piece) {
    match p
    case Glyph(cp) => IsScalar(cp) && cp != 0x1B
    case Csi(body, final) => 0x40 <= final <= 0x7E && forall i :: 0 <= i < |body| ==> !(0x40 <= body[i] <= 0x7E)
    case Osc(body, _) =>
      forall i :: 0 <= i < |body| ==> body[i] != 0x07 && (i + 1 < |body| && body[i] == 0x1B ==> body[i + 1] != 0x5C)
    case Short(b) => b != 0x5B && b != 0x5D
  }

  function Bytes(p: Piece): (s: seq<byte>)
    requires IsPiece(p)
    ensures s != []
  {
    match p
    case Glyph(cp) => Encode(cp)
    case Csi(body, final) => [0x1B, 0x5B] + (body + [final])
    case Osc(body, bell) => [0x1B, 0x5D] + (body + if bell then [0x07] else [0x1B, 0x5C])
    case Short(b) => [0x1B, b]
  }

  ghost predicate ArePieces(ps: seq<Piece>) {
    forall i :: 0 <= i < |ps| ==> IsPiece(ps[i])
  }

  function Render(ps: seq<Piece>): seq<byte>
    requires ArePieces(ps)
  {
    if ps == [] then [] else Bytes(ps[0]) + Render(ps[1..])
  }

  // Characters have width, the rest has none.
  function PieceWidth(width: Width, ps: seq<Piece>): nat
    requires ArePieces(ps)
  {
    if ps == [] then 0
    else (if ps[0].Glyph? then width(Encode(ps[0].cp)) else 0) + PieceWidth(width, ps[1..])
  }

  lemma {:induction false} CsiBody(body: seq<byte>, final: byte)
    requires 0x40 <= final <= 0x7E && forall i :: 0 <= i < |body| ==> !(0x40 <= body[i] <= 0x7E)
    ensures CsiLen(body + [final]) == |body| + 1 && CsiClosed(body + [final])
  {
    if body != [] {
      assert (body + [final])[1..] == body[1..] + [final];
      CsiBody(body[1..], final);
    }
  }

  lemma {:induction false} OscBody(body: seq<byte>, bell: bool)
    requires forall i :: 0 <= i < |body| ==> body[i] != 0x07 && (i + 1 < |body| && body[i] == 0x1B ==> body[i + 1] != 0x5C)
    ensures var s := body + if bell then [0x07] else [0x1B, 0x5C];
            OscLen(s) == |s| && OscClosed(s)
  {
    var end: seq<byte> := if bell then [0x07] else [0x1B, 0x5C];
    if body != [] {
      assert (body + end)[1..] == body[1..] + end;
      OscBody(body[1..], bell);
      assert !StartsST(body + end);
    }
  }

  lemma PieceIsToken(p: Piece)
    requires IsPiece(p)
    ensures IsToken(Bytes(p)) && Closed(Bytes(p)) && KindOf(Bytes(p)) == if p.Glyph? then Rune else Escape
  {
    hide CsiLen, OscLen, CsiClosed, OscClosed;
    var s := Bytes(p);
    match p {
      case Glyph(cp) =>
        EncodingIsRune(cp, []);
        assert s[0] != ESC;
      case Csi(body, final) =>
        CsiBody(body, final);
        assert s[2..] == body + [final];
      case Osc(body, bell) =>
        OscBody(body, bell);
        assert s[2..] == body + if bell then [0x07] else [0x1B, 0x5C];
      case Short(b) =>
    }
  }

  function AllBytes(ps: seq<Piece>): (ts: seq<seq<byte>>)
    requires ArePieces(ps)
    ensures |ts| == |ps| && NoneEmpty(ts)
  {
    seq(|ps|, i requires 0 <= i < |ps| => Bytes(ps[i]))
  }

  lemma {:induction false} RenderIsConcat(width: Width, ps: seq<Piece>)
    requires ArePieces(ps)
    ensures Concat(AllBytes(ps)) == Render(ps) && WidthOf(width, AllBytes(ps)) == PieceWidth(width, ps)
  {
    hide Bytes, KindOf;
    if ps != [] {
      assert AllBytes(ps)[1..] == AllBytes(ps[1..]);
      RenderIsConcat(width, ps[1..]);
      PieceIsToken(ps[0]);
      if ps[0].Glyph? {
        GlyphBytes(ps[0]);
      }
    }
  }

  lemma GlyphBytes(p: Piece)
    requires IsPiece(p) && p.Glyph?
    ensures Bytes(p) == Encode(p.cp)
  {}

  // Such a text consists of exactly its pieces.
  lemma TokensOfPieces(ps: seq<Piece>)
    requires ArePieces(ps)
    ensures Tokens(Render(ps)) == AllBytes(ps)
  {
    hide Tokens, Bytes, KindOf, IsToken, Closed;
    RenderIsConcat(s => 0, ps);
    forall i | 0 <= i < |ps| ensures IsToken(AllBytes(ps)[i]) && Closed(AllBytes(ps)[i]) && KindOf(AllBytes(ps)[i]) != Bad {
      PieceIsToken(ps[i]);
    }
    TokensOfConcat(AllBytes(ps));
  }

  lemma {:induction false} GoodAreAll(ts: seq<seq<byte>>)
    requires NoneEmpty(ts) && forall i :: 0 <= i < |ts| ==> KindOf(ts[i]) != Bad
    ensures Good(ts) == ts
  {
    hide KindOf;
    if ts != [] {
      GoodAreAll(ts[1..]);
      assert ts == [ts[0]] + ts[1..];
    }
  }

  // Truncating it keeps the longest run of whole pieces whose characters fit: only a character that would
  // overflow ends the text, and styles before it are kept.
  lemma TruncatePieces(width: Width, ps: seq<Piece>, maxWidth: int) returns (k: nat)
    requires ArePieces(ps) && maxWidth > 0
    ensures k <= |ps| && Truncate(width, Render(ps), maxWidth) == Render(ps[..k])
    ensures PieceWidth(width, ps[..k]) <= maxWidth
    ensures k < |ps| ==> ps[k].Glyph? && PieceWidth(width, ps[..k]) + width(Encode(ps[k].cp)) > maxWidth
  {
    hide Tokens, Truncate, Bytes, KindOf, WidthOf, PieceWidth, Render, Concat;
    var ts := AllBytes(ps);
    TokensOfPieces(ps);
    k := TruncateKeepsWholeTokens(width, Render(ps), maxWidth);
    assert ts[..k] == AllBytes(ps[..k]);
    forall i | 0 <= i < |ps| ensures KindOf(ts[i]) == if ps[i].Glyph? then Rune else Escape {
      PieceIsToken(ps[i]);
    }
    GoodAreAll(ts[..k]);
    RenderIsConcat(width, ps[..k]);
    TokensPartition(Truncate(width, Render(ps), maxWidth));
    if k < |ps| {
      GlyphBytes(ps[k]);
    }
  }

  // ----- the code -----

  lemma TailStep(s: seq<byte>, j: nat)
    requires j < |s|
    ensures s[j..] == [s[j]] + s[j + 1..] && s[j..][1..] == s[j + 1..]
  {}

  // Where the escape sequence at i ends.
  method SkipEscape(s: seq<byte>, i: nat) returns (j: nat)
    requires i < |s| && s[i] == ESC
    ensures j == i + TokenLen(s[i..])
  {
    assert i + 1 < |s| ==> s[i..][1] == s[i + 1] && s[i..][2..] == s[i + 2..];
    if i + 1 < |s| && s[i + 1] == CSI {
      j := i + 2;
      while j < |s|
        invariant i + 2 <= j <= |s|
        invariant (j - i - 2) + CsiLen(s[j..]) == CsiLen(s[i + 2..])
      {
        TailStep(s, j);
        var b := s[j];
        j := j + 1;
        if IsFinal(b) {
          break;
        }
      }
    } else if i + 1 < |s| && s[i + 1] == OSC {
      j := i + 2;
      while j < |s|
        invariant i + 2 <= j <= |s|
        invariant (j - i - 2) + OscLen(s[j..]) == OscLen(s[i + 2..])
      {
        TailStep(s, j);
        if s[j] == BEL {
          j := j + 1;
          break;
        }
        if s[j] == ESC && j + 1 < |s| && s[j + 1] == BACKSLASH {
          j := j + 2;
          break;
        }
        j := j + 1;
      }
    } else if i + 1 < |s| {
      j := i + 2;
    } else {
      j := i + 1;
    }
  }

  // What is written so far, and what the rest of the text will add.
  ghost predicate Writing(width: Width, s: seq<byte>, maxWidth: int, i: nat, out: seq<byte>, visible: nat) {
    && i <= |s| && visible <= maxWidth
    && NoneEmpty(Tokens(s[i..]))
    && Truncate(width, s, maxWidth) == out + Concat(Clip(width, Tokens(s[i..]), maxWidth - visible))
  }

  lemma WritingStep(width: Width, s: seq<byte>, maxWidth: int, i: nat, out: seq<byte>, visible: nat)
    requires Writing(width, s, maxWidth, i, out, visible) && i < |s|
    ensures var n := TokenLen(s[i..]);
            var t := s[i..i + n];
            match KindOf(s[i..])
            case Escape => Writing(width, s, maxWidth, i + n, out + t, visible)
            case Bad => n == 1 && Writing(width, s, maxWidth, i + 1, out, visible)
            case Rune =>
              if visible + width(t) > maxWidth then Truncate(width, s, maxWidth) == out
              else Writing(width, s, maxWidth, i + n, out + t, visible + width(t))
  {
    hide TokenLen, KindOf, Truncate;
    var n := TokenLen(s[i..]);
    var t, rest := s[i..][..n], s[i + n..];
    assert s[i..][n..] == rest && t == s[i..i + n];
    assert Tokens(s[i..]) == [t] + Tokens(rest) && ([t] + Tokens(rest))[1..] == Tokens(rest);
    TokensPartition(rest);
    KindOfToken(s[i..]);
    var budget := maxWidth - visible;
    if KindOf(t) == Escape {
      ConcatStep(t, Clip(width, Tokens(rest), budget), out);
    } else if KindOf(t) == Rune && width(t) <= budget {
      ConcatStep(t, Clip(width, Tokens(rest), budget - width(t)), out);
    }
  }

  lemma ConcatStep(t: seq<byte>, ts: seq<seq<byte>>, out: seq<byte>)
    ensures out + Concat([t] + ts) == (out + t) + Concat(ts)
  {
    assert ([t] + ts)[1..] == ts;
  }

  lemma KindOfToken(s: seq<byte>)
    requires s != []
    ensures KindOf(s[..TokenLen(s)]) == KindOf(s)
    ensures KindOf(s) == Bad ==> TokenLen(s) == 1
    ensures KindOf(s) == Rune ==> TokenLen(s) == RuneLen(s)
  {
    hide RuneLen;
    if s[0] != ESC {
      RuneStands(s, []);
    }
  }

  lemma WritingEscape(width: Width, s: seq<byte>, maxWidth: int, i: nat, out: seq<byte>, visible: nat)
    requires Writing(width, s, maxWidth, i, out, visible) && i < |s| && s[i] == ESC
    ensures var j := i + TokenLen(s[i..]);
            Writing(width, s, maxWidth, j, out + s[i..j], visible)
  {
    hide Writing, TokenLen;
    WritingStep(width, s, maxWidth, i, out, visible);
  }

  lemma WritingBad(width: Width, s: seq<byte>, maxWidth: int, i: nat, out: seq<byte>, visible: nat)
    requires Writing(width, s, maxWidth, i, out, visible) && i < |s| && s[i] != ESC && RuneLen(s[i..]) == 0
    ensures Writing(width, s, maxWidth, i + 1, out, visible)
  {
    hide Writing, TokenLen, RuneLen;
    WritingStep(width, s, maxWidth, i, out, visible);
  }

  lemma WritingRune(width: Width, s: seq<byte>, maxWidth: int, i: nat, out: seq<byte>, visible: nat)
    requires Writing(width, s, maxWidth, i, out, visible) && i < |s| && s[i] != ESC && RuneLen(s[i..]) != 0
    ensures var j := i + RuneLen(s[i..]);
            var w := width(s[i..j]);
            if visible + w > maxWidth then Truncate(width, s, maxWidth) == out
            else Writing(width, s, maxWidth, j, out + s[i..j], visible + w)
  {
    hide Writing, TokenLen, RuneLen, Truncate;
    WritingStep(width, s, maxWidth, i, out, visible);
    KindOfToken(s[i..]);
  }

  method AnsiSafeTruncate(width: Width, s: seq<byte>, maxWidth: int) returns (out: seq<byte>)
    ensures out == Truncate(width, s, maxWidth)
  {
    hide *;
    WritingStart(width, s, maxWidth);
    if maxWidth <= 0 {
      return [];
    }
    out := [];
    var visible: nat, i: nat := 0, 0;
    while i < |s|
      invariant i <= |s|
      invariant Writing(width, s, maxWidth, i, out, visible)
    {
      if s[i] == ESC {
        WritingEscape(width, s, maxWidth, i, out, visible);
        var j := SkipEscape(s, i);
        out := out + s[i..j];
        i := j;
        continue;
      }
      var size := RuneLen(s[i..]);
      if size == 0 {
        WritingBad(width, s, maxWidth, i, out, visible);
        i := i + 1;
        continue;
      }
      WritingRune(width, s, maxWidth, i, out, visible);
      var w := width(s[i..i + size]);
      if visible + w > maxWidth {
        return;
      }
      out := out + s[i..i + size];
      visible := visible + w;
      i := i + size;
    }
    WritingDone(width, s, maxWidth, out, visible);
  }

  lemma WritingStart(width: Width, s: seq<byte>, maxWidth: int)
    ensures if maxWidth <= 0 then Truncate(width, s, maxWidth) == [] else Writing(width, s, maxWidth, 0, [], 0)
  {
    TokensPartition(s);
    assert s[0..] == s;
  }

  lemma WritingDone(width: Width, s: seq<byte>, maxWidth: int, out: seq<byte>, visible: nat)
    requires Writing(width, s, maxWidth, |s|, out, visible)
    ensures out == Truncate(width, s, maxWidth)
  {
    hide Truncate;
    assert out + [] == out;
  }

  method HardClipLinesToWidth(width: Width, s: seq<byte>, w: int) returns (r: seq<byte>)
    ensures r == HardClip(width, s, w)
  {
    hide Truncate, Split, Join;
    if w <= 0 {
      return s;
    }
    var lines := Split(s, NEWLINE);
    for i := 0 to |lines|
      invariant |lines| == |Split(s, NEWLINE)|
      invariant forall j :: 0 <= j < i ==> lines[j] == Truncate(width, Split(s, NEWLINE)[j], w)
      invariant forall j :: i <= j < |lines| ==> lines[j] == Split(s, NEWLINE)[j]
    {
      var line := AnsiSafeTruncate(width, lines[i], w);
      lines := lines[i := line];
    }
    assert lines == TruncateAll(width, Split(s, NEWLINE), w);
    return Join(lines, NEWLINE);
  }
}
