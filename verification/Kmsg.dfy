/**
The kernel-log follower of internal/probe/kmsg.go: records arrive in arbitrary pieces and are put
back together at their newlines, with a bound on how much of an unfinished line is kept.
*/
module Kmsg {
  import opened Strings
  import opened Wrappers

  type byte = b: int | 0 <= b < 0x100

  const NEWLINE: byte := 0x0a
  // kmsgMaxPerRead: how many reads one drain makes at most.
  const MAX_PER_READ := 2000
  const BUFFER := 8192

  // What one read of the descriptor can give.
  datatype ReadResult =
    | Data(bytes: seq<byte>)  // n > 0
    | CaughtUp                // EAGAIN, or n == 0
    | Overrun                 // EPIPE: the ring wrapped
    | Interrupted             // EINTR
    | Failed                  // any other error

  // ----- reference meaning -----

  // The lines of a stream that a newline has ended.
  function CompleteLines(stream: seq<byte>): seq<seq<byte>> {
    var parts := Split(stream, 0x0a);
    parts[..|parts| - 1]
  }

  // What follows the last newline.
  function Unfinished(stream: seq<byte>): seq<byte> {
    var parts := Split(stream, 0x0a);
    parts[|parts| - 1]
  }

  function Concat(chunks: seq<seq<byte>>): seq<byte> {
    if chunks == [] then [] else Concat(chunks[..|chunks| - 1]) + chunks[|chunks| - 1]
  }

  predicate LinesFit(lines: seq<seq<byte>>, limit: nat) {
    forall i :: 0 <= i < |lines| ==> |lines[i]| <= limit
  }

  // A way for the stream to arrive: reads of at least one byte and at most a buffer.
  predicate Arrival(chunks: seq<seq<byte>>, stream: seq<byte>, limit: nat) {
    && Concat(chunks) == stream
    && forall i :: 0 <= i < |chunks| ==> 1 <= |chunks[i]| <= limit
  }

  // ----- what the code does with one read -----

  function LinesOf(carry: seq<byte>, chunk: seq<byte>): seq<seq<byte>> {
    CompleteLines(carry + chunk)
  }

  function CarryAfter(carry: seq<byte>, chunk: seq<byte>, limit: nat): seq<byte> {
    if NEWLINE in carry + chunk then Unfinished(carry + chunk) else LastN(carry + chunk, limit)
  }

  function Lines(chunks: seq<seq<byte>>, limit: nat): seq<seq<byte>> {
    if chunks == [] then []
    else
      var n := |chunks| - 1;
      Lines(chunks[..n], limit) + LinesOf(Carry(chunks[..n], limit), chunks[n])
  }

  function Carry(chunks: seq<seq<byte>>, limit: nat): seq<byte> {
    if chunks == [] then []
    else
      var n := |chunks| - 1;
      CarryAfter(Carry(chunks[..n], limit), chunks[n], limit)
  }

  // The events the classifier finds in these lines.
  function Classified<E>(lines: seq<seq<byte>>, classify: seq<byte> -> Option<E>): seq<E> {
    if lines == [] then []
    else
      var n := |lines| - 1;
      Classified(lines[..n], classify) + (match classify(lines[n]) { case None => [] case Some(e) => [e] })
  }

  // ----- the code -----

  class KmsgWatcher {
    var carry: seq<byte>
    const bufLen: nat

    ghost var chunks: seq<seq<byte>>  // every read that returned data
    ghost var handed: seq<seq<byte>>  // every line handed to the parser

    ghost predicate Valid()
      reads this
    {
      && bufLen == BUFFER
      && Arrival(chunks, Concat(chunks), bufLen)
      && handed == Lines(chunks, bufLen)
      && carry == Carry(chunks, bufLen)
    }

    constructor ()
      ensures Valid() && bufLen == 8192 && chunks == [] && handed == [] && carry == []
    {
      bufLen, carry, chunks, handed := BUFFER, [], [], [];
    }

    // results[i] is what the i-th read of this drain would give; lines is what the parser gets.
    method Read<E>(results: seq<ReadResult>, classify: seq<byte> -> Option<E>)
      returns (events: seq<E>, failed: bool, ghost used: nat, ghost lines: seq<seq<byte>>)
      requires Valid() && |results| == 2000
      requires forall i :: 0 <= i < |results| && results[i].Data? ==> 1 <= |results[i].bytes| <= bufLen
      modifies `carry, `chunks, `handed
      ensures Valid()
      ensures used <= |results| && chunks == old(chunks) + DataOf(results[..used])
      ensures handed == old(handed) + lines && events == Classified(lines, classify)
      ensures failed <==> used > 0 && results[used - 1].Failed?
      ensures used < |results| ==> used > 0 && (results[used - 1].Failed? || results[used - 1].CaughtUp?)
      ensures forall i :: 0 <= i < used - 1 ==> !results[i].Failed? && !results[i].CaughtUp?
    {
      NothingYet(results, classify);
      hide Classified, DataOf, Lines, Carry, Concat, Arrival;
      events, failed, used, lines := [], false, 0, [];
      for i := 0 to MAX_PER_READ
        invariant used == i && Valid()
        invariant chunks == old(chunks) + DataOf(results[..i])
        invariant handed == old(handed) + lines
        invariant events == Classified(lines, classify)
        invariant forall j :: 0 <= j < i ==> !results[j].Failed? && !results[j].CaughtUp?
      {
        DataOfNext(results, i);
        used := used + 1;
        var found, more := ReadOne(results[i], classify);
        ClassifiedAppend(lines, more, classify);
        events, lines := events + found, lines + more;
        if results[i].CaughtUp? {
          return;
        }
        if results[i].Failed? {
          failed := true;
          return;
        }
      }
    }

    // One pass of the loop in Read.
    method ReadOne<E>(result: ReadResult, classify: seq<byte> -> Option<E>)
      returns (events: seq<E>, ghost lines: seq<seq<byte>>)
      requires Valid() && (result.Data? ==> 1 <= |result.bytes| <= bufLen)
      modifies `carry, `chunks, `handed
      ensures Valid()
      ensures chunks == old(chunks) + (if result.Data? then [result.bytes] else [])
      ensures handed == old(handed) + lines
      ensures events == Classified(lines, classify)
    {
      events, lines := [], [];
      if result.Data? {
        var more := Absorb(result.bytes);
        events := Parse(more, classify);
        lines := more;
      }
    }

    // One read's worth of data: the lines it completes, and what is left over.
    method Absorb(chunk: seq<byte>) returns (lines: seq<seq<byte>>)
      requires Valid() && 1 <= |chunk| <= bufLen
      modifies `carry, `chunks, `handed
      ensures Valid()
      ensures chunks == old(chunks) + [chunk] && handed == old(handed) + lines
    {
      var data := carry + chunk;
      var last := LastIndex(data, NEWLINE);
      CutAtLast(data, last);
      ArrivalAppend(chunks, chunk, bufLen);
      if last < 0 {
        lines := [];
        if |data| > bufLen {
          data := data[|data| - bufLen..];
        }
        carry := data;
      } else {
        carry := data[last + 1..];
        lines := Split(data[..last], NEWLINE);
      }
      chunks, handed := chunks + [chunk], handed + lines;
    }
  }

  method Parse<E>(lines: seq<seq<byte>>, classify: seq<byte> -> Option<E>) returns (events: seq<E>)
    ensures events == Classified(lines, classify)
  {
    events := [];
    for i := 0 to |lines|
      invariant events == Classified(lines[..i], classify)
    {
      assert lines[..i + 1][..i] == lines[..i];
      var ev := classify(lines[i]);
      if ev.Some? {
        events := events + [ev.value];
      }
    }
    assert lines[..|lines|] == lines;
  }

  lemma {:induction false} ClassifiedAppend<E>(a: seq<seq<byte>>, b: seq<seq<byte>>, classify: seq<byte> -> Option<E>)
    ensures Classified(a + b, classify) == Classified(a, classify) + Classified(b, classify)
  {
    if b == [] {
      assert a + b == a;
    } else {
      var n := |b| - 1;
      assert (a + b)[..|a + b| - 1] == a + b[..n];
      ClassifiedAppend(a, b[..n], classify);
    }
  }

  // The events are the values the classifier gives, one for each line it recognises and in their
  // order: `at` lists the positions of those lines.
  lemma {:induction false} ClassifiedIs<E>(lines: seq<seq<byte>>, classify: seq<byte> -> Option<E>) returns (at: seq<nat>)
    ensures forall i, j :: 0 <= i < j < |at| ==> at[i] < at[j]
    ensures forall i :: 0 <= i < |at| ==> at[i] < |lines|
    ensures forall i: nat :: i < |lines| ==> (i in at <==> classify(lines[i]).Some?)
    ensures |Classified(lines, classify)| == |at|
    ensures forall i :: 0 <= i < |at| ==> Some(Classified(lines, classify)[i]) == classify(lines[at[i]])
  {
    at := [];
    if lines != [] {
      var n := |lines| - 1;
      at := ClassifiedIs(lines[..n], classify);
      if classify(lines[n]).Some? {
        at := at + [n];
      }
    }
  }

  function DataOf(results: seq<ReadResult>): seq<seq<byte>> {
    if results == [] then []
    else
      var n := |results| - 1;
      DataOf(results[..n]) + (if results[n].Data? then [results[n].bytes] else [])
  }

  lemma NothingYet<E>(results: seq<ReadResult>, classify: seq<byte> -> Option<E>)
    ensures DataOf(results[..0]) == [] && Classified([], classify) == []
  {}

  lemma DataOfNext(results: seq<ReadResult>, i: nat)
    requires i < |results|
    ensures DataOf(results[..i + 1]) == DataOf(results[..i]) + (if results[i].Data? then [results[i].bytes] else [])
  {
    assert results[..i + 1][..i] == results[..i];
  }

  // bytes.LastIndexByte
  method LastIndex(data: seq<byte>, b: byte) returns (last: int)
    ensures -1 <= last < |data|
    ensures last >= 0 ==> data[last] == b
    ensures forall i :: last < i < |data| ==> data[i] != b
  {
    last := |data| - 1;
    while last >= 0 && data[last] != b
      invariant -1 <= last < |data|
      invariant forall i :: last < i < |data| ==> data[i] != b
    {
      last := last - 1;
    }
  }

  lemma ArrivalAppend(chunks: seq<seq<byte>>, chunk: seq<byte>, limit: nat)
    requires Arrival(chunks, Concat(chunks), limit) && 1 <= |chunk| <= limit
    ensures Arrival(chunks + [chunk], Concat(chunks + [chunk]), limit)
    ensures Lines(chunks + [chunk], limit) == Lines(chunks, limit) + LinesOf(Carry(chunks, limit), chunk)
    ensures Carry(chunks + [chunk], limit) == CarryAfter(Carry(chunks, limit), chunk, limit)
    ensures Concat(chunks + [chunk]) == Concat(chunks) + chunk
  {
    assert (chunks + [chunk])[..|chunks|] == chunks;
  }

  // ----- lines of a stream that grows -----

  lemma NoNewline(s: seq<byte>)
    requires NEWLINE !in s
    ensures CompleteLines(s) == [] && Unfinished(s) == s
  {
    SplitWithout(s, NEWLINE);
  }

  lemma FirstNewline(a: seq<byte>, b: seq<byte>)
    requires NEWLINE !in a
    ensures CompleteLines(a + [NEWLINE] + b) == [a] + CompleteLines(b) && Unfinished(a + [NEWLINE] + b) == Unfinished(b)
  {
    SplitAt(a, b, NEWLINE);
  }

  // What is already complete stays; what is unfinished is continued.
  lemma {:induction false} StreamStep(stream: seq<byte>, chunk: seq<byte>)
    ensures CompleteLines(stream + chunk) == CompleteLines(stream) + CompleteLines(Unfinished(stream) + chunk)
    ensures Unfinished(stream + chunk) == Unfinished(Unfinished(stream) + chunk)
    decreases |stream|
  {
    if NEWLINE !in stream {
      NoNewline(stream);
    } else {
      var line, rest := CutFirst(stream);
      FirstNewline(line, rest);
      FirstNewline(line, rest + chunk);
      assert stream + chunk == line + [NEWLINE] + (rest + chunk);
      StreamStep(rest, chunk);
    }
  }

  lemma CutFirst(s: seq<byte>) returns (line: seq<byte>, rest: seq<byte>)
    requires NEWLINE in s
    ensures s == line + [NEWLINE] + rest && NEWLINE !in line
  {
    if s[0] == NEWLINE {
      line, rest := [], s[1..];
    } else {
      line, rest := CutFirst(s[1..]);
      line := [s[0]] + line;
    }
  }

  lemma {:induction false} UnfinishedProperties(s: seq<byte>)
    ensures |Unfinished(s)| <= |s| && NEWLINE !in Unfinished(s)
    decreases |s|
  {
    if NEWLINE !in s {
      NoNewline(s);
    } else {
      var line, rest := CutFirst(s);
      FirstNewline(line, rest);
      UnfinishedProperties(rest);
    }
  }

  // A chunk with a newline ends the open line, which is at least as long as it was.
  lemma ChunkEndsLine(open: seq<byte>, chunk: seq<byte>)
    requires NEWLINE !in open && NEWLINE in chunk
    ensures CompleteLines(open + chunk) != [] && |CompleteLines(open + chunk)[0]| >= |open|
    ensures |Unfinished(open + chunk)| < |chunk|
  {
    var line, rest := CutFirst(chunk);
    assert open + chunk == (open + line) + [NEWLINE] + rest;
    FirstNewline(open + line, rest);
    UnfinishedProperties(rest);
  }

  // Cutting at the last newline is splitting off the last piece.
  lemma CutAtLast(data: seq<byte>, last: int)
    requires -1 <= last < |data|
    requires last >= 0 ==> data[last] == NEWLINE
    requires forall i :: last < i < |data| ==> data[i] != NEWLINE
    ensures last < 0 ==> NEWLINE !in data && CompleteLines(data) == []
    ensures last >= 0 ==> NEWLINE in data && CompleteLines(data) == Split(data[..last], NEWLINE)
                          && Unfinished(data) == data[last + 1..]
  {
    if last < 0 {
      NoNewline(data);
    } else {
      var head, tail := data[..last], data[last + 1..];
      assert data == head + ([NEWLINE] + tail);
      StreamStep(head, [NEWLINE] + tail);
      assert Unfinished(head) + ([NEWLINE] + tail) == Unfinished(head) + [NEWLINE] + tail;
      UnfinishedProperties(head);
      FirstNewline(Unfinished(head), tail);
      NoNewline(tail);
      LastPiece(head);
    }
  }

  lemma LastPiece(s: seq<byte>)
    ensures CompleteLines(s) + [Unfinished(s)] == Split(s, NEWLINE)
  {}

  // ----- re-framing -----

  // For every stream, however long its lines, the carry is bounded and holds no newline.
  lemma {:induction false} CarryBounded(chunks: seq<seq<byte>>, limit: nat)
    requires Arrival(chunks, Concat(chunks), limit)
    ensures |Carry(chunks, limit)| <= limit && NEWLINE !in Carry(chunks, limit)
  {
    if chunks != [] {
      var n := |chunks| - 1;
      CarryBounded(chunks[..n], limit);
      CarryAfterBounded(Carry(chunks[..n], limit), chunks[n], limit);
    }
  }

  lemma CarryAfterBounded(carry: seq<byte>, chunk: seq<byte>, limit: nat)
    requires NEWLINE !in carry && |chunk| <= limit
    ensures |CarryAfter(carry, chunk, limit)| <= limit && NEWLINE !in CarryAfter(carry, chunk, limit)
  {
    if NEWLINE in chunk {
      ChunkEndsLine(carry, chunk);
      UnfinishedProperties(carry + chunk);
    }
  }

  // If no complete line is longer than the buffer, the lines handed over are the lines of the
  // stream, however it was cut into reads and however the reads were grouped into drains.
  lemma {:induction false} FramingIsExact(chunks: seq<seq<byte>>, stream: seq<byte>, limit: nat)
    requires Arrival(chunks, stream, limit) && LinesFit(CompleteLines(stream), limit)
    ensures Lines(chunks, limit) == CompleteLines(stream)
    ensures Carry(chunks, limit) == LastN(Unfinished(stream), limit)
  {
    if chunks != [] {
      var n := |chunks| - 1;
      var pre, chunk := chunks[..n], chunks[n];
      StreamStep(Concat(pre), chunk);
      assert LinesFit(CompleteLines(Concat(pre)), limit) by {
        FitPrefix(CompleteLines(Concat(pre)), CompleteLines(stream), limit);
      }
      FramingIsExact(pre, Concat(pre), limit);
      ExactStep(Carry(pre, limit), Concat(pre), chunk, limit);
    }
  }

  lemma FitPrefix(a: seq<seq<byte>>, b: seq<seq<byte>>, limit: nat)
    requires a <= b && LinesFit(b, limit)
    ensures LinesFit(a, limit)
  {
    forall i | 0 <= i < |a| ensures |a[i]| <= limit {
      assert a[i] == b[i];
    }
  }

  lemma ExactStep(carry: seq<byte>, stream: seq<byte>, chunk: seq<byte>, limit: nat)
    requires carry == LastN(Unfinished(stream), limit) && |chunk| <= limit
    requires LinesFit(CompleteLines(stream + chunk), limit)
    ensures CompleteLines(stream) + LinesOf(carry, chunk) == CompleteLines(stream + chunk)
    ensures CarryAfter(carry, chunk, limit) == LastN(Unfinished(stream + chunk), limit)
  {
    var open := Unfinished(stream);
    StreamStep(stream, chunk);
    UnfinishedProperties(stream);
    if NEWLINE in chunk {
      ChunkEndsLine(open, chunk);
      assert CompleteLines(stream + chunk)[|CompleteLines(stream)|] == CompleteLines(open + chunk)[0];
      assert carry == open;
    } else {
      NoNewline(carry + chunk);
      NoNewline(open + chunk);
    }
  }

  // ----- the exact condition -----

  // Read byte by byte, every line loses all but its last `limit` bytes.
  function Singles(stream: seq<byte>): (chunks: seq<seq<byte>>)
    ensures |chunks| == |stream|
  {
    if stream == [] then [] else Singles(stream[..|stream| - 1]) + [[stream[|stream| - 1]]]
  }

  function Cropped(lines: seq<seq<byte>>, limit: nat): (r: seq<seq<byte>>)
    ensures |r| == |lines|
  {
    seq(|lines|, i requires 0 <= i < |lines| => LastN(lines[i], limit))
  }

  lemma {:induction false} ByteByByteCrops(stream: seq<byte>, limit: nat)
    requires limit >= 1
    ensures Arrival(Singles(stream), stream, limit)
    ensures Lines(Singles(stream), limit) == Cropped(CompleteLines(stream), limit)
    ensures Carry(Singles(stream), limit) == LastN(Unfinished(stream), limit)
  {
    if stream != [] {
      var pre, last := stream[..|stream| - 1], stream[|stream| - 1];
      ByteByByteCrops(pre, limit);
      assert stream == pre + [last];
      ArrivalAppend(Singles(pre), [last], limit);
      CropStep(Carry(Singles(pre), limit), pre, last, limit);
    }
  }

  lemma CropStep(carry: seq<byte>, stream: seq<byte>, last: byte, limit: nat)
    requires limit >= 1 && carry == LastN(Unfinished(stream), limit)
    ensures Cropped(CompleteLines(stream), limit) + LinesOf(carry, [last]) == Cropped(CompleteLines(stream + [last]), limit)
    ensures CarryAfter(carry, [last], limit) == LastN(Unfinished(stream + [last]), limit)
  {
    var open := Unfinished(stream);
    StreamStep(stream, [last]);
    UnfinishedProperties(stream);
    if last == NEWLINE {
      LineEnds(open);
      LineEnds(carry);
    } else {
      NoNewline(carry + [last]);
      NoNewline(open + [last]);
    }
  }

  lemma LineEnds(line: seq<byte>)
    requires NEWLINE !in line
    ensures CompleteLines(line + [NEWLINE]) == [line] && Unfinished(line + [NEWLINE]) == []
  {
    assert line + [NEWLINE] == line + [NEWLINE] + [];
    FirstNewline(line, []);
  }

  // Re-framing gives back the stream's lines for every arrival exactly when each of them fits the buffer.
  lemma FramingExactIff(stream: seq<byte>, limit: nat)
    requires limit >= 1
    ensures LinesFit(CompleteLines(stream), limit) <==>
            forall chunks :: Arrival(chunks, stream, limit) ==> Lines(chunks, limit) == CompleteLines(stream)
  {
    if LinesFit(CompleteLines(stream), limit) {
      forall chunks | Arrival(chunks, stream, limit) ensures Lines(chunks, limit) == CompleteLines(stream) {
        FramingIsExact(chunks, stream, limit);
      }
    } else {
      ByteByByteCrops(stream, limit);
      var i :| 0 <= i < |CompleteLines(stream)| && |CompleteLines(stream)[i]| > limit;
      assert Lines(Singles(stream), limit)[i] != CompleteLines(stream)[i];
    }
  }
}
