/** The bounded line framer: however the stream is cut into reads and wherever a read is cancelled,
    the frames are those of one pass over the whole stream.  */
module LineFramer {
  import opened Options
  import opened NixBase32

  const LF: Byte := 10
  const CR: Byte := 13

  datatype Frame = Text(text: string) | Oversized | InvalidEncoding

  /** `Pending` is a read cancelled at its await; `End` is the end of the stream. */
  datatype Poll = Ready(frame: Frame) | End | Pending

  type Decoder = seq<Byte> -> Option<string>

  predicate NoLineFeed(s: seq<Byte>) {
    forall i :: 0 <= i < |s| ==> s[i] != LF
  }

  /** A line without its carriage return, as text if it is UTF-8. */
  function Render(utf8: Decoder, line: seq<Byte>): Frame {
    var trimmed := if line != [] && line[|line| - 1] == CR then line[..|line| - 1] else line;
    match utf8(trimmed) case Some(text) => Text(text) case None => InvalidEncoding
  }

  function FrameOf(utf8: Decoder, limit: nat, line: seq<Byte>): Frame {
    if |line| > limit then Oversized else Render(utf8, line)
  }

  /** The frames of a stream, byte by byte, after the unfinished line `line`: one for each line, the
      last of which may lack its line feed.  */
  function Frames(utf8: Decoder, limit: nat, line: seq<Byte>, s: seq<Byte>): seq<Frame>
    decreases |s|
  {
    if s == [] then (if line == [] then [] else [FrameOf(utf8, limit, line)])
    else if s[0] == LF then [FrameOf(utf8, limit, line)] + Frames(utf8, limit, [], s[1..])
    else Frames(utf8, limit, line + [s[0]], s[1..])
  }

  /** The frames that follow the first line feed. */
  function FramesAfterLine(utf8: Decoder, limit: nat, s: seq<Byte>): seq<Frame>
    decreases |s|
  {
    if s == [] then []
    else if s[0] == LF then Frames(utf8, limit, [], s[1..])
    else FramesAfterLine(utf8, limit, s[1..])
  }

  lemma {:induction false} ReadIntoLine(utf8: Decoder, limit: nat, line: seq<Byte>, chunk: seq<Byte>, t: seq<Byte>)
    requires NoLineFeed(chunk)
    ensures Frames(utf8, limit, line, chunk + t) == Frames(utf8, limit, line + chunk, t)
    decreases |chunk|
  {
    if chunk == [] {
      assert chunk + t == t && line + chunk == line;
    } else {
      ReadIntoLine(utf8, limit, line + [chunk[0]], chunk[1..], t);
      assert (chunk + t)[1..] == chunk[1..] + t;
      assert line + [chunk[0]] + chunk[1..] == line + chunk;
    }
  }

  lemma {:induction false} ReadPastLine(utf8: Decoder, limit: nat, chunk: seq<Byte>, t: seq<Byte>)
    requires NoLineFeed(chunk)
    ensures FramesAfterLine(utf8, limit, chunk + t) == FramesAfterLine(utf8, limit, t)
    decreases |chunk|
  {
    if chunk == [] {
      assert chunk + t == t;
    } else {
      ReadPastLine(utf8, limit, chunk[1..], t);
      assert (chunk + t)[1..] == chunk[1..] + t;
    }
  }

  /** An over-limit line is one frame and nothing of it is left, however long it goes on. */
  lemma {:induction false} OverlongLine(utf8: Decoder, limit: nat, line: seq<Byte>, s: seq<Byte>)
    requires |line| > limit
    ensures Frames(utf8, limit, line, s) == [Oversized] + FramesAfterLine(utf8, limit, s)
    decreases |s|
  {
    if s == [] || s[0] == LF {
    } else {
      OverlongLine(utf8, limit, line + [s[0]], s[1..]);
    }
  }

  /** Each terminated line is exactly one frame. */
  lemma FramesOfLine(utf8: Decoder, limit: nat, line: seq<Byte>, t: seq<Byte>)
    requires NoLineFeed(line)
    ensures Frames(utf8, limit, [], line + [LF] + t) == [FrameOf(utf8, limit, line)] + Frames(utf8, limit, [], t)
  {
    assert line + [LF] + t == line + ([LF] + t);
    ReadIntoLine(utf8, limit, [], line, [LF] + t);
    assert [] + line == line && ([LF] + t)[1..] == t;
  }

  // ---- the lines of a stream, without a scan ----

  /** These are the lines of `s`: all but the last end in a line feed, which the last, unless it is
      empty, may lack.  */
  predicate Cuts(s: seq<Byte>, lines: seq<seq<Byte>>)
    decreases |lines|
  {
    if lines == [] then s == []
    else
      && 10 !in lines[0]
      && (|| (lines[0] + [10] <= s && Cuts(s[|lines[0]| + 1..], lines[1..]))
          || (s == lines[0] != [] && |lines| == 1))
  }

  /** A line is its content and at most one carriage return after it. */
  predicate IsContent(line: seq<Byte>, content: seq<Byte>) {
    line == content + [13] || (line == content && (line == [] || line[|line| - 1] != 13))
  }

  ghost predicate IsFrameOf(utf8: Decoder, limit: nat, line: seq<Byte>, frame: Frame) {
    if |line| > limit then frame == Oversized
    else
      exists content :: IsContent(line, content)
        && frame == match utf8(content) case Some(text) => Text(text) case None => InvalidEncoding
  }

  ghost predicate AreFrames(utf8: Decoder, limit: nat, lines: seq<seq<Byte>>, frames: seq<Frame>) {
    |frames| == |lines| && forall i :: 0 <= i < |lines| ==> IsFrameOf(utf8, limit, lines[i], frames[i])
  }

  lemma FrameMeans(utf8: Decoder, limit: nat, line: seq<Byte>)
    ensures IsFrameOf(utf8, limit, line, FrameOf(utf8, limit, line))
  {
    if line != [] && line[|line| - 1] == CR {
      assert IsContent(line, line[..|line| - 1]);
    } else {
      assert IsContent(line, line);
    }
  }

  /** Every stream has lines. */
  lemma {:induction false} CutExists(s: seq<Byte>, n: nat) returns (lines: seq<seq<Byte>>)
    requires n <= |s| && NoLineFeed(s[..n])
    ensures Cuts(s, lines)
    decreases |s|, |s| - n
  {
    if n == |s| {
      assert s[..n] == s;
      lines := if s == [] then [] else [s];
    } else if s[n] == LF {
      var rest := CutExists(s[n + 1..], 0);
      lines := [s[..n]] + rest;
      assert s[..n] + [LF] == s[..n + 1] && lines[1..] == rest;
    } else {
      assert s[..n + 1] == s[..n] + [s[n]];
      lines := CutExists(s, n + 1);
    }
  }

  /** The frames of a stream are those of its lines, in order. */
  lemma {:induction false} FramesMean(utf8: Decoder, limit: nat, s: seq<Byte>, lines: seq<seq<Byte>>)
    requires Cuts(s, lines)
    ensures AreFrames(utf8, limit, lines, Frames(utf8, limit, [], s))
    decreases |lines|
  {
    if lines == [] {
    } else if lines[0] + [LF] <= s && Cuts(s[|lines[0]| + 1..], lines[1..]) {
      var t := s[|lines[0]| + 1..];
      assert s == lines[0] + [LF] + t;
      FramesOfLine(utf8, limit, lines[0], t);
      FramesMean(utf8, limit, t, lines[1..]);
      FrameMeans(utf8, limit, lines[0]);
    } else {
      ReadIntoLine(utf8, limit, [], s, []);
      assert s + [] == s && [] + s == s;
      FrameMeans(utf8, limit, s);
    }
  }

  /** The frames still to come from a framer in this state. */
  ghost function Ahead(utf8: Decoder, limit: nat, pending: seq<Byte>, discarding: bool, rest: seq<Byte>): seq<Frame> {
    if discarding then FramesAfterLine(utf8, limit, rest) else Frames(utf8, limit, pending, rest)
  }

  /** What a read that ends within or right after `chunk` leaves to come. */
  lemma ReadChunk(utf8: Decoder, limit: nat, pending: seq<Byte>, discarding: bool, chunk: seq<Byte>, t: seq<Byte>)
    requires NoLineFeed(chunk)
    ensures Ahead(utf8, limit, pending, discarding, chunk + t)
            == if discarding then FramesAfterLine(utf8, limit, t)
               else if |pending + chunk| > limit then [Oversized] + FramesAfterLine(utf8, limit, t)
               else Frames(utf8, limit, pending + chunk, t)
  {
    ReadPastLine(utf8, limit, chunk, t);
    ReadIntoLine(utf8, limit, pending, chunk, t);
    if |pending + chunk| > limit { OverlongLine(utf8, limit, pending + chunk, t); }
  }

  method FindLineFeed(bytes: seq<Byte>) returns (length: nat)
    ensures length <= |bytes| && NoLineFeed(bytes[..length]) && (length < |bytes| ==> bytes[length] == LF)
  {
    length := 0;
    while length < |bytes| && bytes[length] != LF
      invariant length <= |bytes| && NoLineFeed(bytes[..length])
    {
      length := length + 1;
    }
  }

  class Lines {
    const limit: nat
    const utf8: Decoder
    var rest: seq<Byte>
    var pending: seq<Byte>
    var discarding: bool

    ghost predicate Valid()
      reads this
    {
      |pending| <= limit && NoLineFeed(pending) && (discarding ==> pending == [])
    }

    ghost function Remaining(): seq<Frame>
      reads this
    {
      Ahead(utf8, limit, pending, discarding, rest)
    }

    constructor (stream: seq<Byte>, limit: nat, utf8: Decoder)
      ensures Valid() && Remaining() == Frames(utf8, limit, [], stream)
      ensures this.limit == limit && this.utf8 == utf8
    {
      this.limit, this.utf8, rest, pending, discarding := limit, utf8, stream, [], false;
    }

    method Finish() returns (frame: Frame)
      modifies `pending
      ensures frame == Render(utf8, old(pending)) && pending == []
    {
      if pending != [] && pending[|pending| - 1] == CR {
        pending := pending[..|pending| - 1];
      }
      frame := match utf8(pending) case Some(text) => Text(text) case None => InvalidEncoding;
      pending := [];
    }

    /** Take one read of `n` bytes. */
    method Take(n: nat) returns (frame: Option<Frame>)
      requires Valid() && 0 < n <= |rest|
      modifies this
      ensures Valid() && |rest| < |old(rest)|
      ensures old(Remaining()) == (if frame.Some? then [frame.value] else []) + Remaining()
    {
      var length := FindLineFeed(rest[..n]);
      var ended := length < n;
      var consumed := length + if ended then 1 else 0;
      var chunk := rest[..length];
      ghost var t := rest[length..];
      assert rest == chunk + t && rest[..n][..length] == chunk;
      assert ended ==> t != [] && t[0] == LF && t[1..] == rest[consumed..];
      ReadChunk(utf8, limit, pending, discarding, chunk, t);
      frame := None;
      if discarding {
        rest, discarding := rest[consumed..], !ended;
      } else if |pending| + length > limit {
        pending, discarding, rest := [], !ended, rest[consumed..];
        frame := Some(Oversized);
      } else {
        pending, rest := pending + chunk, rest[consumed..];
        if ended {
          var line := Finish();
          frame := Some(line);
        }
      }
    }

    /** `Lines::next`. Each read returns any nonempty part of what is left; with `mayCancel` any read
        may be abandoned, and nothing is lost.  */
    method Next(mayCancel: bool) returns (poll: Poll)
      requires Valid()
      modifies this
      ensures Valid()
      ensures match poll
              case Ready(frame) => old(Remaining()) == [frame] + Remaining()
              case End => old(Remaining()) == [] && Remaining() == []
              case Pending => mayCancel && Remaining() == old(Remaining())
    {
      while true
        invariant Valid() && Remaining() == old(Remaining())
        decreases |rest|
      {
        if mayCancel {
          if * { return Pending; }
        }
        if rest == [] {
          if pending == [] || discarding { return End; }
          var last := Finish();
          return Ready(last);
        }
        var n :| 1 <= n <= |rest|;
        var frame := Take(n);
        if frame.Some? { return Ready(frame.value); }
      }
    }
  }

  lemma MoveFirst<T>(a: seq<T>, b: seq<T>)
    requires b != []
    ensures a + b == (a + [b[0]]) + b[1..]
  {
  }

  /** A whole stream, read in any pieces, with up to `cancellations` reads abandoned on the way. */
  method ReadAll(stream: seq<Byte>, limit: nat, utf8: Decoder, cancellations: nat) returns (frames: seq<Frame>)
    ensures frames == Frames(utf8, limit, [], stream)
    ensures forall cut :: Cuts(stream, cut) ==> AreFrames(utf8, limit, cut, frames)
  {
    forall cut | Cuts(stream, cut) { FramesMean(utf8, limit, stream, cut); }
    var lines := new Lines(stream, limit, utf8);
    ghost var all, ahead := Frames(utf8, limit, [], stream), lines.Remaining();
    frames := [];
    var left := cancellations;
    var done := false;
    while !done
      invariant lines.Valid() && fresh(lines) && left >= 0
      invariant all == frames + ahead && ahead == lines.Remaining()
      invariant done ==> ahead == []
      decreases !done, left + |ahead|
    {
      var poll := lines.Next(left > 0);
      match poll {
        case Ready(frame) =>
          MoveFirst(frames, ahead);
          frames, ahead := frames + [frame], ahead[1..];
        case End =>
          done := true;
        case Pending =>
          left := left - 1;
      }
    }
  }
}
