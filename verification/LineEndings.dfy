/** Text sent to a terminal: line endings brought to one form, and a sender that pauses after every line. */
module LineEndings {
  import opened Bytes

  const CR: byte := 0x0D
  const LF: byte := 0x0A

  datatype Target = ToCR | ToLF | ToCRLF | Raw

  function TargetBytes(t: Target): seq<byte>
    requires t != Raw
  {
    match t
    case ToCR => [CR]
    case ToLF => [LF]
    case ToCRLF => [CR, LF]
  }

  // ---- text as tokens ------------------------------------------------------

  /** A byte within a line, or the end of a line. */
  datatype Token = Plain(value: byte) | EndOfLine

  /** The bytes of a line ending at the front: CRLF is one, and so are a CR and an LF by themselves. */
  function EolLength(s: seq<byte>): (n: nat)
    ensures n <= |s|
  {
    if s == [] then 0
    else if s[0] == CR then if |s| > 1 && s[1] == LF then 2 else 1
    else if s[0] == LF then 1
    else 0
  }

  function Tokens(s: seq<byte>): seq<Token>
    decreases |s|
  {
    if s == [] then []
    else if EolLength(s) > 0 then [EndOfLine] + Tokens(s[EolLength(s)..])
    else [Plain(s[0])] + Tokens(s[1..])
  }

  function Rendered(ts: seq<Token>, t: Target): seq<byte>
    requires t != Raw
  {
    if ts == [] then []
    else (if ts[0].EndOfLine? then TargetBytes(t) else [ts[0].value]) + Rendered(ts[1..], t)
  }

  /** No line ending hides in a plain token. */
  predicate Proper(ts: seq<Token>) {
    forall i :: 0 <= i < |ts| && ts[i].Plain? ==> ts[i].value != CR && ts[i].value != LF
  }

  lemma {:induction false} TokensAreProper(s: seq<byte>)
    ensures Proper(Tokens(s))
    decreases |s|
  {
    if s != [] {
      TokensAreProper(if EolLength(s) > 0 then s[EolLength(s)..] else s[1..]);
    }
  }

  /** Lines written with any one ending read back as the same lines. */
  lemma {:induction false} RenderThenRead(ts: seq<Token>, t: Target)
    requires t != Raw && Proper(ts)
    ensures Tokens(Rendered(ts, t)) == ts
  {
    if ts != [] {
      RenderThenRead(ts[1..], t);
      var head := if ts[0].EndOfLine? then TargetBytes(t) else [ts[0].value];
      var rest := Rendered(ts[1..], t);
      var s := head + rest;
      if ts[0].EndOfLine? {
        FrontIsNotLf(ts[1..], t);
        assert EolLength(s) == |head|;
      }
      assert s[|head|..] == rest;
    }
  }

  /** Text rendered with CR endings never begins with LF. */
  lemma FrontIsNotLf(ts: seq<Token>, t: Target)
    requires t != Raw && Proper(ts)
    ensures t == ToCR && Rendered(ts, t) != [] ==> Rendered(ts, t)[0] != LF
  {
  }

  // ---- the conversion ------------------------------------------------------

  function Converted(s: seq<byte>, t: Target): seq<byte> {
    if t == Raw then s else Rendered(Tokens(s), t)
  }

  /** One more plain byte before a rest, or one line ending. */
  lemma ConvertedStep(s: seq<byte>, t: Target)
    requires s != [] && t != Raw
    ensures Converted(s, t)
            == if EolLength(s) > 0 then TargetBytes(t) + Converted(s[EolLength(s)..], t) else [s[0]] + Converted(s[1..], t)
  {
    var ts := Tokens(s);
    assert ts[1..] == Tokens(if EolLength(s) > 0 then s[EolLength(s)..] else s[1..]);
  }

  /** Scanned up to i: what is done, the plain bytes since lastEnd, and the rest still to convert. */
  ghost predicate Scanned(buffer: seq<byte>, t: Target, done: seq<byte>, lastEnd: nat, i: nat) {
    lastEnd <= i <= |buffer| && Converted(buffer, t) == done + buffer[lastEnd..i] + Converted(buffer[i..], t)
  }

  lemma PlainFront(buffer: seq<byte>, t: Target, i: nat)
    requires t != Raw && i < |buffer| && EolLength(buffer[i..]) == 0
    ensures Converted(buffer[i..], t) == [buffer[i]] + Converted(buffer[i + 1..], t)
  {
    ConvertedStep(buffer[i..], t);
    assert buffer[i..][1..] == buffer[i + 1..];
  }

  lemma ScanPlain(buffer: seq<byte>, t: Target, done: seq<byte>, lastEnd: nat, i: nat)
    requires t != Raw && Scanned(buffer, t, done, lastEnd, i) && i < |buffer| && EolLength(buffer[i..]) == 0
    ensures Scanned(buffer, t, done, lastEnd, i + 1)
  {
    PlainFront(buffer, t, i);
    OneMorePlain(buffer, done, lastEnd, i, Converted(buffer[i + 1..], t));
  }

  lemma OneMorePlain(buffer: seq<byte>, done: seq<byte>, lastEnd: nat, i: nat, rest: seq<byte>)
    requires lastEnd <= i < |buffer|
    ensures done + buffer[lastEnd..i] + ([buffer[i]] + rest) == done + buffer[lastEnd..i + 1] + rest
  {
    assert buffer[lastEnd..i + 1] == buffer[lastEnd..i] + [buffer[i]];
    Regroup(done, buffer[lastEnd..i], [buffer[i]], rest);
  }

  lemma ScanEol(buffer: seq<byte>, t: Target, done: seq<byte>, lastEnd: nat, i: nat, next: nat)
    requires t != Raw && Scanned(buffer, t, done, lastEnd, i) && i < |buffer| && EolLength(buffer[i..]) > 0
    requires next == i + EolLength(buffer[i..])
    ensures Scanned(buffer, t, done + buffer[lastEnd..i] + TargetBytes(t), next, next)
  {
    ConvertedStep(buffer[i..], t);
    assert buffer[i..][next - i..] == buffer[next..];
    Regroup(done + buffer[lastEnd..i], TargetBytes(t), [], Converted(buffer[next..], t));
  }

  lemma Regroup(a: seq<byte>, b: seq<byte>, c: seq<byte>, d: seq<byte>)
    ensures a + b + (c + d) == a + (b + c) + d
    ensures c == [] ==> a + (b + d) == a + b + c + d
  {
  }

  method ConvertLineEndings(buffer: seq<byte>, target: Target) returns (r: seq<byte>)
    ensures r == Converted(buffer, target)
  {
    if target == Raw {
      return buffer;
    }
    var chunks: seq<seq<byte>>, lastEnd, i := [], 0, 0;
    assert buffer[0..] == buffer;
    while i < |buffer|
      invariant Scanned(buffer, target, Flat(chunks), lastEnd, i)
    {
      if buffer[i] == CR || buffer[i] == LF {
        ghost var done := Flat(chunks);
        FlatPush(chunks, buffer[lastEnd..i]);
        FlatPush(chunks + [buffer[lastEnd..i]], TargetBytes(target));
        chunks := chunks + [buffer[lastEnd..i]] + [TargetBytes(target)];
        var next := if buffer[i] == CR && i + 1 < |buffer| && buffer[i + 1] == LF then i + 2 else i + 1;
        ScanEol(buffer, target, done, lastEnd, i, next);
        lastEnd, i := next, next;
      } else {
        ScanPlain(buffer, target, Flat(chunks), lastEnd, i);
        i := i + 1;
      }
    }
    if lastEnd < |buffer| {
      FlatPush(chunks, buffer[lastEnd..]);
      chunks := chunks + [buffer[lastEnd..]];
    }
    return Flat(chunks);
  }

  /** Converting twice is converting once, to the second form. */
  lemma ConvertTwice(buffer: seq<byte>, s: Target, t: Target)
    requires s != Raw && t != Raw
    ensures Converted(Converted(buffer, s), t) == Converted(buffer, t)
  {
    TokensAreProper(buffer);
    RenderThenRead(Tokens(buffer), s);
  }

  /** Text is left as it is exactly when all its line endings are of that form already. */
  lemma ConvertedIsNormal(buffer: seq<byte>, t: Target)
    requires t != Raw
    ensures Converted(buffer, t) == buffer <==> exists ts :: Proper(ts) && buffer == Rendered(ts, t)
  {
    TokensAreProper(buffer);
    if Converted(buffer, t) == buffer {
      assert Proper(Tokens(buffer)) && buffer == Rendered(Tokens(buffer), t);
    }
    if ts :| Proper(ts) && buffer == Rendered(ts, t) {
      RenderThenRead(ts, t);
    }
  }

  /** Every carriage return has its line feed behind it and every line feed its carriage return before it. */
  predicate Paired(s: seq<byte>) {
    && (forall i :: 0 <= i < |s| && s[i] == 13 ==> i + 1 < |s| && s[i + 1] == 10)
    && (forall i :: 0 <= i < |s| && s[i] == 10 ==> i > 0 && s[i - 1] == 13)
  }

  lemma {:induction false} RenderedEndings(ts: seq<Token>, t: Target)
    requires t != Raw && Proper(ts)
    ensures t == ToCR ==> 10 !in Rendered(ts, t)
    ensures t == ToLF ==> 13 !in Rendered(ts, t)
    ensures t == ToCRLF ==> Paired(Rendered(ts, t))
  {
    if ts != [] {
      RenderedEndings(ts[1..], t);
      var head, rest := if ts[0].EndOfLine? then TargetBytes(t) else [ts[0].value], Rendered(ts[1..], t);
      if t == ToCRLF { PairedJoin(head, rest); }
    }
  }

  lemma PairedJoin(head: seq<byte>, rest: seq<byte>)
    requires Paired(head) && Paired(rest)
    ensures Paired(head + rest)
  {
    var s := head + rest;
    forall i | 0 <= i < |s| && s[i] == 13
      ensures i + 1 < |s| && s[i + 1] == 10
    {
      if i < |head| { assert head[i] == 13; } else { assert rest[i - |head|] == 13; }
    }
    forall i | 0 <= i < |s| && s[i] == 10
      ensures i > 0 && s[i - 1] == 13
    {
      if i < |head| { assert head[i] == 10; } else { assert rest[i - |head|] == 10; }
    }
  }

  /** What a conversion leaves: no line feed, no carriage return, or the two only as a pair. */
  lemma ConvertedEndings(s: seq<byte>, t: Target)
    ensures t == ToCR ==> 10 !in Converted(s, t)
    ensures t == ToLF ==> 13 !in Converted(s, t)
    ensures t == ToCRLF ==> Paired(Converted(s, t))
    ensures t == Raw ==> Converted(s, t) == s
  {
    if t != Raw {
      TokensAreProper(s);
      RenderedEndings(Tokens(s), t);
    }
  }

  // ---- sending in chunks ---------------------------------------------------

  function ChunkSize(option: Option<int>): (n: nat)
    ensures 1 <= n <= 16
  {
    var asked := if option.None? || option.value == 0 then 1 else option.value;
    Min(if asked > 1 then asked else 1, 16)
  }

  /** Sizes from 1 to 16 are taken as asked for, smaller and missing ones as 1, larger ones as 16. */
  lemma ChunkSizeClamps(n: int)
    ensures ChunkSize(None) == 1
    ensures ChunkSize(Some(n)) == if n < 1 then 1 else if n > 16 then 16 else n
  {
  }

  /** Within a line: no line ending anywhere. */
  predicate NoEol(s: seq<byte>) {
    forall i :: 0 <= i < |s| ==> s[i] != CR && s[i] != LF
  }

  /** A piece of one line, ended by its line ending exactly when the sender pauses after it. */
  ghost predicate GoodChunk(c: seq<byte>, pause: bool, chunkSize: nat) {
    && c != []
    && (!pause ==> NoEol(c) && |c| <= chunkSize)
    && (pause ==> exists body: seq<byte>, eol: seq<byte> ::
          NoEol(body) && |body| < chunkSize && (eol == [CR] || eol == [LF] || eol == [CR, LF]) && c == body + eol)
  }

  /** Positions between the CR and the LF of a pair. */
  predicate SplitsPair(buffer: seq<byte>, at: nat) {
    0 < at < |buffer| && buffer[at - 1] == CR && buffer[at] == LF
  }

  method NextChunk(buffer: seq<byte>, offset: nat, chunkSize: nat) returns (end: nat, pause: bool)
    requires offset < |buffer| && chunkSize >= 1
    ensures offset < end <= |buffer| && !SplitsPair(buffer, end)
    ensures GoodChunk(buffer[offset..end], pause, chunkSize)
    ensures pause || end == |buffer| || end == offset + chunkSize
  {
    var bound := Min(offset + chunkSize, |buffer|);
    for i := offset to bound
      invariant NoEol(buffer[offset..i])
    {
      ghost var body := buffer[offset..i];
      if buffer[i] == LF {
        assert buffer[offset..i + 1] == body + [LF];
        return i + 1, true;
      } else if buffer[i] == CR {
        if i + 1 < |buffer| && buffer[i + 1] == LF {
          assert buffer[offset..i + 2] == body + [CR, LF];
          return i + 2, true;
        }
        assert buffer[offset..i + 1] == body + [CR];
        return i + 1, true;
      }
      assert buffer[offset..i + 1] == body + [buffer[i]];
    }
    assert bound > offset && buffer[offset..bound][bound - 1 - offset] == buffer[bound - 1];
    return bound, false;
  }

  /** No boundary between chunks divides a CRLF. */
  ghost predicate NoneSplit(buffer: seq<byte>, chunks: seq<seq<byte>>) {
    forall k :: 0 <= k <= |chunks| ==> !SplitsPair(buffer, |Flat(chunks[..k])|)
  }

  /** One more chunk from the front of the text. */
  lemma SentFront(buffer: seq<byte>, chunks: seq<seq<byte>>, offset: nat, end: nat)
    requires offset <= end <= |buffer| && Flat(chunks) == buffer[..offset] && NoneSplit(buffer, chunks) && !SplitsPair(buffer, end)
    ensures var after := chunks + [buffer[offset..end]];
            Flat(after) == buffer[..end] && NoneSplit(buffer, after)
  {
    var after := chunks + [buffer[offset..end]];
    FlatPush(chunks, buffer[offset..end]);
    assert buffer[..offset] + buffer[offset..end] == buffer[..end];
    forall k | 0 <= k <= |after|
      ensures !SplitsPair(buffer, |Flat(after[..k])|)
    {
      if k < |after| { assert after[..k] == chunks[..k]; } else { assert after[..k] == after; }
    }
  }

  datatype Outcome = Completed | Cancelled | WriteFailed

  /**
   Chunks are sent until the text is through, the replay is cancelled or a
   write fails. What was sent is the front of the text, all of it on completion,
   in chunks that stop at line endings and never divide a CRLF.
   */
  method Replay(buffer: seq<byte>, option: Option<int>, cancelled: nat -> bool, writeWorks: nat -> bool)
    returns (outcome: Outcome, chunks: seq<seq<byte>>, pauses: seq<bool>)
    ensures Flat(chunks) <= buffer && |pauses| == |chunks|
    ensures outcome == Completed <==> Flat(chunks) == buffer
    ensures forall k :: 0 <= k < |chunks| ==> GoodChunk(chunks[k], pauses[k], ChunkSize(option))
    ensures forall k :: 0 <= k < |chunks| && !pauses[k] ==> |chunks[k]| == ChunkSize(option) || (k == |chunks| - 1 && Flat(chunks) == buffer)
    ensures NoneSplit(buffer, chunks)
    ensures outcome == Completed ==> forall k :: 0 <= k < |chunks| ==> !cancelled(k) && writeWorks(k)
    ensures outcome == Cancelled ==> cancelled(|chunks|)
    ensures outcome == WriteFailed ==> !cancelled(|chunks|) && !writeWorks(|chunks|)
  {
    var offset := 0;
    chunks, pauses := [], [];
    while offset < |buffer|
      invariant offset <= |buffer| && Flat(chunks) == buffer[..offset] && |pauses| == |chunks|
      invariant forall k :: 0 <= k < |chunks| ==> GoodChunk(chunks[k], pauses[k], ChunkSize(option)) && !cancelled(k) && writeWorks(k)
      invariant forall k :: 0 <= k < |chunks| && !pauses[k] ==> |chunks[k]| == ChunkSize(option) || (k == |chunks| - 1 && offset == |buffer|)
      invariant NoneSplit(buffer, chunks)
      decreases |buffer| - offset
    {
      if cancelled(|chunks|) {
        return Cancelled, chunks, pauses;
      }
      var end, pause := NextChunk(buffer, offset, ChunkSize(option));
      if !writeWorks(|chunks|) {
        return WriteFailed, chunks, pauses;
      }
      SentFront(buffer, chunks, offset, end);
      chunks, pauses := chunks + [buffer[offset..end]], pauses + [pause];
      offset := end;
    }
    assert buffer[..|buffer|] == buffer;
    return Completed, chunks, pauses;
  }

  // ---- the lines byte by byte ----------------------------------------------

  /** A CR ends a line, and so does an LF that is not right behind a CR. */
  function Lines(s: seq<byte>, behindCR: bool): seq<Token> {
    if s == [] then []
    else if s[0] == 13 then [EndOfLine] + Lines(s[1..], true)
    else if s[0] == 10 then (if behindCR then [] else [EndOfLine]) + Lines(s[1..], false)
    else [Plain(s[0])] + Lines(s[1..], false)
  }

  /** The lines the scan finds are those. */
  lemma {:induction false} EndingsByByte(s: seq<byte>)
    ensures Lines(s, false) == Tokens(s)
    ensures Lines(s, true) == if s != [] && s[0] == 10 then Tokens(s[1..]) else Tokens(s)
    decreases |s|
  {
    if s != [] {
      EndingsByByte(s[1..]);
      if |s| > 1 && s[0] == 13 && s[1] == 10 { assert s[1..][1..] == s[2..]; }
    }
  }

  /** No chunk goes past a line ending, and none stops between the two bytes of one. */
  lemma ChunkBytes(buffer: seq<byte>, chunks: seq<seq<byte>>, k: nat, pause: bool, size: nat)
    requires k < |chunks| && GoodChunk(chunks[k], pause, size) && Flat(chunks) <= buffer && NoneSplit(buffer, chunks)
    ensures var c := chunks[k];
            && c != [] && |c| <= size + 1
            && (forall i :: 0 <= i < |c| - 2 ==> c[i] != 13 && c[i] != 10)
            && (pause <==> c[|c| - 1] == 13 || c[|c| - 1] == 10)
            && (|c| > 1 && (c[|c| - 2] == 13 || c[|c| - 2] == 10) ==> c[|c| - 2..] == [13, 10])
    ensures var at := |Flat(chunks[..k])|;
            0 < at < |buffer| ==> !(buffer[at - 1] == 13 && buffer[at] == 10)
  {
    var c := chunks[k];
    if pause {
      var body: seq<byte>, eol: seq<byte> :|
        NoEol(body) && |body| < size && (eol == [CR] || eol == [LF] || eol == [CR, LF]) && c == body + eol;
      assert forall i :: 0 <= i < |body| ==> c[i] == body[i];
    }
    assert !SplitsPair(buffer, |Flat(chunks[..k])|);
  }
}
