/** The frame check in front of the EHBP decryption
    (apps/gateway/internal/adapters/http/handlers/confidential_chat_completions_handler.go, validatedEHBPBody). */
module EHBPBody {
  import opened Common
  import opened Wrappers

  datatype SourceError = NoError | Eof | Failed

  datatype BodyError =
    | Fine | End | UnexpectedEnd | NoProgress | EmptyFrame | FrameTooLarge | BodyTooLarge | SourceFailed
  {
    /** Errors that blame the bytes rather than the source. */
    predicate BadFraming() { UnexpectedEnd? || EmptyFrame? || FrameTooLarge? || BodyTooLarge? }
  }

  function BigEndian32(p: seq<byte>): nat
    requires |p| == 4
  {
    ((p[0] as int * 256 + p[1]) * 256 + p[2]) * 256 + p[3]
  }

  /** From `at` on the bytes are whole frames of 1 to `maxFrame` bytes, each behind its 4-byte size,
      and the body ends within `maxBody`. */
  predicate Framed(data: seq<byte>, at: nat, maxFrame: nat, maxBody: nat)
    decreases |data| - at
  {
    at == |data|
    || (at + 4 <= |data|
        && var size := BigEndian32(data[at..at + 4]);
           1 <= size <= maxFrame && at + 4 + size <= maxBody && at + 4 + size <= |data|
           && Framed(data, at + 4 + size, maxFrame, maxBody))
  }

  /** The first thing that is wrong with the frames from `at` on. */
  function FirstFault(data: seq<byte>, at: nat, maxFrame: nat, maxBody: nat): Option<BodyError>
    decreases |data| - at
  {
    if at == |data| then None
    else if at + 4 > |data| then Some(UnexpectedEnd)
    else
      var size := BigEndian32(data[at..at + 4]);
      if size == 0 then Some(EmptyFrame)
      else if size > maxFrame then Some(FrameTooLarge)
      else if at + 4 + size > maxBody then Some(BodyTooLarge)
      else if at + 4 + size > |data| then Some(UnexpectedEnd)
      else FirstFault(data, at + 4 + size, maxFrame, maxBody)
  }

  lemma {:induction false} FramedIffNoFault(data: seq<byte>, at: nat, maxFrame: nat, maxBody: nat)
    requires at <= |data|
    ensures Framed(data, at, maxFrame, maxBody) <==> FirstFault(data, at, maxFrame, maxBody) == None
    decreases |data| - at
  {
    if at + 4 <= |data| {
      var size := BigEndian32(data[at..at + 4]);
      hide BigEndian32;
      if at + 4 + size <= |data| { FramedIffNoFault(data, at + 4 + size, maxFrame, maxBody); }
    }
  }

  /** A frame size as four bytes, the most significant first. */
  function SizeBytes(n: nat): (s: seq<byte>)
    ensures |s| == 4
    requires n < 0x1_0000_0000
  {
    [n / 0x100_0000, n / 0x1_0000 % 0x100, n / 0x100 % 0x100, n % 0x100]
  }

  type Content = c: seq<byte> | |c| < 0x1_0000_0000

  function Frame(content: Content): seq<byte> { SizeBytes(|content|) + content }

  function Framing(contents: seq<Content>): seq<byte> {
    if contents == [] then [] else Frame(contents[0]) + Framing(contents[1..])
  }

  predicate Sized(contents: seq<Content>, maxFrame: nat) { forall c | c in contents :: 1 <= |c| <= maxFrame }

  lemma SizeRead(p: seq<byte>, n: nat)
    requires |p| == 4 && n < 0x1_0000_0000
    ensures p == SizeBytes(n) <==> BigEndian32(p) == n
  {
    var a, b, c, d := p[0] as int, p[1] as int, p[2] as int, p[3] as int;
    Digits(n, a, b, c, d);
    var s := SizeBytes(n);
    assert p == s <==> a == s[0] && b == s[1] && c == s[2] && d == s[3];
  }

  lemma LastDigit(n: nat, front: nat, d: byte)
    ensures n == front * 0x100 + d <==> front == n / 0x100 && d == n % 0x100
  {
  }

  lemma Digits(n: nat, a: byte, b: byte, c: byte, d: byte)
    ensures n == ((a * 256 + b) * 256 + c) * 256 + d <==>
      a == n / 0x100_0000 && b == n / 0x1_0000 % 0x100 && c == n / 0x100 % 0x100 && d == n % 0x100
  {
    var x := n / 0x100;
    var y := x / 0x100;
    assert y == n / 0x1_0000;
    assert y / 0x100 == n / 0x100_0000;
    LastDigit(n, (a * 256 + b) * 256 + c, d);
    LastDigit(x, a * 256 + b, c);
    LastDigit(y, a, b);
  }

  lemma FirstFrame(data: seq<byte>, at: nat, size: nat)
    requires at + 4 + size <= |data|
    ensures data[at..] == data[at..at + 4] + data[at + 4..at + 4 + size] + data[at + 4 + size..]
  {
  }

  lemma {:induction false} FramedIsFraming(data: seq<byte>, at: nat, maxFrame: nat, maxBody: nat)
        returns (contents: seq<Content>)
    requires at <= |data| <= maxBody && Framed(data, at, maxFrame, maxBody)
    ensures Sized(contents, maxFrame)
    ensures Framing(contents) == data[at..]
    decreases |data| - at
  {
    hide *;
    if at == |data| {
      contents := [];
      NoFraming(data, maxFrame);
    } else {
      var size := NextFrame(data, at, maxFrame, maxBody);
      var rest := FramedIsFraming(data, at + 4 + size, maxFrame, maxBody);
      var content: Content := data[at + 4..at + 4 + size];
      contents := [content] + rest;
      FramingInFront(content, rest, maxFrame);
      FirstFrame(data, at, size);
    }
  }

  lemma NoFraming(data: seq<byte>, maxFrame: nat)
    ensures Sized([], maxFrame) && Framing([]) == data[|data|..]
  {
  }

  lemma NextFrame(data: seq<byte>, at: nat, maxFrame: nat, maxBody: nat) returns (size: nat)
    requires at < |data| && Framed(data, at, maxFrame, maxBody)
    ensures 1 <= size <= maxFrame && size < 0x1_0000_0000 && at + 4 + size <= |data|
    ensures data[at..at + 4] == SizeBytes(size) && Framed(data, at + 4 + size, maxFrame, maxBody)
  {
    size := BigEndian32(data[at..at + 4]);
    Bounded(data[at..at + 4]);
    hide BigEndian32, SizeBytes;
    SizeRead(data[at..at + 4], size);
  }

  lemma Bounded(p: seq<byte>)
    requires |p| == 4
    ensures BigEndian32(p) < 0x1_0000_0000
  {
  }

  lemma FramingInFront(content: Content, rest: seq<Content>, maxFrame: nat)
    requires 1 <= |content| <= maxFrame && Sized(rest, maxFrame)
    ensures Sized([content] + rest, maxFrame)
    ensures Framing([content] + rest) == SizeBytes(|content|) + content + Framing(rest)
  {
    hide SizeBytes;
    assert ([content] + rest)[1..] == rest;
  }

  lemma {:induction false} FramingIsFramed(front: seq<byte>, contents: seq<Content>, maxFrame: nat, maxBody: nat)
    requires Sized(contents, maxFrame)
    requires |front + Framing(contents)| <= maxBody
    ensures Framed(front + Framing(contents), |front|, maxFrame, maxBody)
    decreases |contents|
  {
    hide *;
    FramingParts(contents, maxFrame);
    if contents == [] {
      NothingIsFramed(front, maxFrame, maxBody);
    } else {
      var content, rest := contents[0], contents[1..];
      FrameInFront(front, content, Framing(rest));
      FramingIsFramed(front + Frame(content), rest, maxFrame, maxBody);
      SizeRead(SizeBytes(|content|), |content|);
      FramedCons(front + Framing(contents), |front|, |content|, maxFrame, maxBody);
    }
  }

  lemma FramingParts(contents: seq<Content>, maxFrame: nat)
    requires Sized(contents, maxFrame)
    ensures contents == [] ==> Framing(contents) == []
    ensures contents != [] ==>
      Framing(contents) == Frame(contents[0]) + Framing(contents[1..]) && 1 <= |contents[0]| <= maxFrame
    ensures contents != [] ==> Sized(contents[1..], maxFrame)
  {
    hide Frame;
    if contents != [] {
      assert contents[0] in contents && forall c | c in contents[1..] :: c in contents;
    }
  }

  lemma NothingIsFramed(front: seq<byte>, maxFrame: nat, maxBody: nat)
    ensures front + [] == front && Framed(front, |front|, maxFrame, maxBody)
  {
  }

  lemma FrameInFront(front: seq<byte>, content: Content, rest: seq<byte>)
    ensures var data := front + (Frame(content) + rest);
      && data == front + Frame(content) + rest && |front + Frame(content)| == |front| + 4 + |content|
      && data[|front|..|front| + 4] == SizeBytes(|content|)
  {
    hide SizeBytes;
    var data := front + (Frame(content) + rest);
    assert data[|front|..] == SizeBytes(|content|) + (content + rest);
    assert data[|front|..|front| + 4] == data[|front|..][..4];
  }

  lemma FramedCons(data: seq<byte>, at: nat, size: nat, maxFrame: nat, maxBody: nat)
    requires at + 4 + size <= |data| <= maxBody && BigEndian32(data[at..at + 4]) == size && 1 <= size <= maxFrame
    requires Framed(data, at + 4 + size, maxFrame, maxBody)
    ensures Framed(data, at, maxFrame, maxBody)
  {
    hide BigEndian32;
  }

  lemma {:induction false} FramedFits(data: seq<byte>, at: nat, maxFrame: nat, maxBody: nat)
    requires at <= |data| && at <= maxBody && Framed(data, at, maxFrame, maxBody)
    ensures |data| <= maxBody
    decreases |data| - at
  {
    hide BigEndian32;
    if at != |data| { FramedFits(data, at + 4 + BigEndian32(data[at..at + 4]), maxFrame, maxBody); }
  }

  /** Well framed bytes are exactly the framings of contents of allowed sizes within the body limit. */
  lemma WellFramedIff(data: seq<byte>, maxFrame: nat, maxBody: nat)
    ensures Framed(data, 0, maxFrame, maxBody) <==>
      |data| <= maxBody && exists contents :: Sized(contents, maxFrame) && Framing(contents) == data
  {
    hide Framed, Sized, Framing;
    assert data[0..] == data;
    if Framed(data, 0, maxFrame, maxBody) {
      FramedFits(data, 0, maxFrame, maxBody);
      var contents := FramedIsFraming(data, 0, maxFrame, maxBody);
    }
    if contents :| |data| <= maxBody && Sized(contents, maxFrame) && Framing(contents) == data {
      assert [] + Framing(contents) == data;
      FramingIsFramed([], contents, maxFrame, maxBody);
    }
  }

  /** A reader over `data` that may return short reads, finitely many empty ones, and fail at any time. It counts
      its failures and its empty reads. */
  class Source {
    const data: seq<byte>
    var pos: nat
    var patience: nat
    ghost var failures: nat
    ghost var stalls: nat

    constructor (data: seq<byte>, patience: nat)
      ensures this.data == data && pos == 0 && failures == 0 && stalls == 0
    {
      this.data := data;
      pos := 0;
      failures, stalls := 0, 0;
      this.patience := patience;
    }

    method Read(limit: nat) returns (chunk: seq<byte>, err: SourceError)
      requires pos <= |data| && limit > 0
      modifies this
      ensures old(pos) <= pos <= |data| && chunk == data[old(pos)..pos] && |chunk| <= limit
      ensures err == Eof ==> pos == |data|
      ensures chunk == [] && err == NoError ==> patience < old(patience)
      ensures patience <= old(patience)
      ensures failures == old(failures) + if err == Failed then 1 else 0
      ensures stalls == old(stalls) + if chunk == [] && err == NoError then 1 else 0
    {
      var n: nat :| n <= limit && pos + n <= |data|;
      err :| err == Eof ==> pos + n == |data|;
      if n == 0 && err == NoError {
        if patience == 0 {
          err := Failed;
        } else {
          patience := patience - 1;
          stalls := stalls + 1;
        }
      }
      if err == Failed { failures := failures + 1; }
      chunk := data[pos..pos + n];
      pos := pos + n;
    }
  }

  // ---------- Where the reader stands ----------

  /** Everything delivered, the rest of the size prefix, and the rest of the frame make up the checked wire size. */
  datatype Position = Position(
    data: seq<byte>, maxFrame: nat, maxBody: nat,
    pos: nat, wireSize: nat, prefix: seq<byte>, prefixOffset: nat, frameRemaining: nat, delivered: seq<byte>)

  ghost predicate Consistent(p: Position) {
    && p.pos <= |p.data| && |p.prefix| == 4 && p.prefixOffset <= 4
    && p.delivered + p.prefix[p.prefixOffset..] == p.data[..p.pos]
    && p.pos + p.frameRemaining == p.wireSize && p.wireSize <= p.maxBody
    && (p.prefixOffset < 4 ==> p.frameRemaining > 0)
    && FramesUpTo(p.data, p.wireSize, p.maxFrame, p.maxBody)
  }

  /** The bytes up to `at` were whole frames, so what is wrong with the whole is wrong with the rest. */
  ghost predicate FramesUpTo(data: seq<byte>, at: nat, maxFrame: nat, maxBody: nat) {
    FirstFault(data, 0, maxFrame, maxBody)
    == if at <= |data| then FirstFault(data, at, maxFrame, maxBody) else Some(UnexpectedEnd)
  }

  lemma AccountedFor(p: Position)
    requires Consistent(p)
    ensures |p.delivered| + (4 - p.prefixOffset) + p.frameRemaining == p.wireSize <= p.maxBody
  {
    assert |p.delivered + p.prefix[p.prefixOffset..]| == p.pos;
  }

  lemma DeliverPrefix(p: Position, n: nat)
    requires Consistent(p) && p.prefixOffset + n <= 4
    ensures Consistent(p.(prefixOffset := p.prefixOffset + n,
      delivered := p.delivered + p.prefix[p.prefixOffset..p.prefixOffset + n]))
  {
    var q := p.prefix[p.prefixOffset..];
    assert q == p.prefix[p.prefixOffset..p.prefixOffset + n] + p.prefix[p.prefixOffset + n..];
  }

  lemma DeliverFrame(p: Position, pos: nat)
    requires Consistent(p) && p.prefixOffset == 4 && p.pos <= pos <= |p.data| && pos - p.pos <= p.frameRemaining
    ensures Consistent(p.(pos := pos, frameRemaining := p.frameRemaining - (pos - p.pos),
      delivered := p.delivered + p.data[p.pos..pos]))
  {
    assert p.prefix[4..] == [];
    assert p.data[..p.pos] + p.data[p.pos..pos] == p.data[..pos];
  }

  /** The source ended inside a frame. */
  lemma CutFrame(p: Position)
    requires Consistent(p) && p.pos == |p.data| && p.frameRemaining > 0
    ensures FirstFault(p.data, 0, p.maxFrame, p.maxBody) == Some(UnexpectedEnd)
  {
  }

  /** The source ended between frames. */
  lemma CleanEnd(p: Position)
    requires Consistent(p) && p.pos == |p.data| && p.frameRemaining == 0
    ensures Framed(p.data, 0, p.maxFrame, p.maxBody) && p.delivered == p.data
  {
    FramedIffNoFault(p.data, 0, p.maxFrame, p.maxBody);
    assert p.prefix[4..] == [];
    assert p.data[..|p.data|] == p.data;
  }

  lemma CutPrefix(p: Position)
    requires Consistent(p) && p.frameRemaining == 0 && p.pos < |p.data| < p.pos + 4
    ensures FirstFault(p.data, 0, p.maxFrame, p.maxBody) == Some(UnexpectedEnd)
  {
  }

  /** A size that fails a check makes the whole body badly framed. */
  lemma BadSize(p: Position, size: nat, err: BodyError)
    requires Consistent(p) && p.frameRemaining == 0 && p.pos + 4 <= |p.data|
    requires size == BigEndian32(p.data[p.pos..p.pos + 4])
    requires err == if size == 0 then EmptyFrame else if size > p.maxFrame then FrameTooLarge else BodyTooLarge
    requires size == 0 || size > p.maxFrame || 4 + size > p.maxBody - p.wireSize
    ensures FirstFault(p.data, 0, p.maxFrame, p.maxBody) == Some(err)
  {
  }

  /** A size that passes opens the next frame. */
  lemma OpenFrame(p: Position, size: nat)
    requires Consistent(p) && p.frameRemaining == 0 && p.pos + 4 <= |p.data|
    requires size == BigEndian32(p.data[p.pos..p.pos + 4])
    requires 1 <= size <= p.maxFrame && 4 + size <= p.maxBody - p.wireSize
    ensures Consistent(p.(pos := p.pos + 4, wireSize := p.wireSize + 4 + size, prefix := p.data[p.pos..p.pos + 4],
                          prefixOffset := 0, frameRemaining := size))
  {
    hide BigEndian32;
    assert p.prefix[4..] == [];
    assert p.data[p.pos..p.pos + 4][0..] == p.data[p.pos..p.pos + 4];
    assert p.data[..p.pos] + p.data[p.pos..p.pos + 4] == p.data[..p.pos + 4];
  }

  /** What reading and checking a size says about the whole body. */
  lemma HeaderDecides(p: Position, bytes: seq<byte>, e: BodyError, size: nat, err: BodyError)
    requires Consistent(p) && p.frameRemaining == 0 && p.prefixOffset == 4 && |bytes| <= 4
      && p.pos + |bytes| <= |p.data|
    requires bytes == p.data[p.pos..p.pos + |bytes|] && (e.Fine? ==> |bytes| == 4 && size == BigEndian32(bytes))
    requires e.End? ==> p.pos == |p.data|
    requires e.UnexpectedEnd? ==> p.pos < |p.data| < p.pos + 4
    requires e.Fine? || e.End? || e.UnexpectedEnd? || e.SourceFailed?
    requires err == if !e.Fine? then e
             else if size == 0 then EmptyFrame
             else if size > p.maxFrame then FrameTooLarge
             else if 4 + size > p.maxBody - p.wireSize then BodyTooLarge
             else Fine
    ensures err.End? ==> Framed(p.data, 0, p.maxFrame, p.maxBody) && p.delivered == p.data
    ensures err.BadFraming() ==> FirstFault(p.data, 0, p.maxFrame, p.maxBody) == Some(err)
    ensures err.Fine? ==> Consistent(p.(pos := p.pos + 4, wireSize := p.wireSize + 4 + size, prefix := bytes,
                                        prefixOffset := 0, frameRemaining := size))
  {
    hide Consistent, Framed, FirstFault, BigEndian32;
    if e.End? {
      CleanEnd(p);
    } else if e.UnexpectedEnd? {
      CutPrefix(p);
    } else if e.Fine? && !err.Fine? {
      BadSize(p, size, err);
    } else if e.Fine? {
      OpenFrame(p, size);
    }
  }

  class ValidatedEHBPBody {
    const source: Source
    const maxFrame: nat
    const maxBody: nat
    var wireSize: nat
    var prefix: seq<byte>
    var prefixOffset: nat
    var frameRemaining: nat
    ghost var delivered: seq<byte>
    ghost var stopped: bool

    ghost function View(): Position
      reads this, source
    {
      Position(source.data, maxFrame, maxBody, source.pos, wireSize, prefix, prefixOffset, frameRemaining, delivered)
    }

    /** The position is consistent until a read of a frame size fails: its bytes are gone, and no frame is open. */
    ghost predicate Valid()
      reads this, source
    {
      && source.pos <= |source.data| && |prefix| == 4 && prefixOffset <= 4 && wireSize <= maxBody
      && (!stopped ==> Consistent(View()))
    }

    /** Only a source that did fail, or that did return nothing, since the given counts is blamed for it. */
    ghost predicate Blamed(failures: nat, stalls: nat, err: BodyError)
      reads source
    {
      && source.failures >= failures && source.stalls >= stalls
      && (err.SourceFailed? ==> source.failures > failures) && (err.NoProgress? ==> source.stalls > stalls)
    }

    constructor (source: Source, maxFrame: nat, maxBody: nat)
      requires source.pos == 0
      ensures Valid() && !stopped && delivered == []
      ensures this.source == source && this.maxFrame == maxFrame && this.maxBody == maxBody
    {
      this.source := source;
      this.maxFrame := maxFrame;
      this.maxBody := maxBody;
      wireSize := 0;
      prefix := [0, 0, 0, 0];
      prefixOffset := 4;
      frameRemaining := 0;
      delivered := [];
      stopped := false;
    }

    /** Reads the four size bytes, however the source splits them. */
    method ReadPrefix() returns (bytes: seq<byte>, err: BodyError)
      requires source.pos <= |source.data|
      modifies source
      ensures source.pos <= |source.data| && source.patience <= old(source.patience)
      ensures source.pos == old(source.pos) + |bytes| && bytes == source.data[old(source.pos)..source.pos]
        && |bytes| <= 4
      ensures err.Fine? ==> |bytes| == 4
      ensures err.End? ==> source.pos == old(source.pos) == |source.data|
      ensures err.UnexpectedEnd? ==> old(source.pos) < |source.data| < old(source.pos) + 4
      ensures err.Fine? || err.End? || err.UnexpectedEnd? || err.SourceFailed?
      ensures Blamed(old(source.failures), old(source.stalls), err)
    {
      bytes := [];
      while |bytes| < 4
        invariant |bytes| <= 4 && source.pos == old(source.pos) + |bytes| <= |source.data|
        invariant bytes == source.data[old(source.pos)..source.pos] && source.patience <= old(source.patience)
        invariant source.failures >= old(source.failures) && source.stalls >= old(source.stalls)
        decreases 4 - |bytes|, source.patience
      {
        var chunk, e := source.Read(4 - |bytes|);
        bytes := bytes + chunk;
        if |bytes| < 4 && e == Eof {
          return bytes, if bytes == [] then End else UnexpectedEnd;
        }
        if |bytes| < 4 && e == Failed {
          return bytes, SourceFailed;
        }
      }
      return bytes, Fine;
    }

    /** The next bytes of an open frame. */
    method ReadFrame(size: nat) returns (chunk: seq<byte>, err: BodyError)
      requires Valid() && prefixOffset == 4 && frameRemaining > 0 && size > 0
      modifies this, source
      ensures Valid() && stopped == old(stopped) && wireSize == old(wireSize)
      ensures delivered == old(delivered) + chunk && |chunk| <= Min(size, old(frameRemaining))
      ensures !stopped && err.Fine? ==> chunk != []
      ensures !stopped && err.End? ==> Framed(source.data, 0, maxFrame, maxBody) && delivered == source.data
      ensures !stopped && err.BadFraming() ==> FirstFault(source.data, 0, maxFrame, maxBody) == Some(err)
      ensures Blamed(old(source.failures), old(source.stalls), err)
      ensures source.patience <= old(source.patience)
    {
      hide Consistent, Framed, FirstFault;
      ghost var before := View();
      var e;
      chunk, e := source.Read(Min(size, frameRemaining));
      if !stopped { DeliverFrame(before, source.pos); }
      frameRemaining := frameRemaining - |chunk|;
      delivered := delivered + chunk;
      if |chunk| == 0 && e == NoError {
        return chunk, NoProgress;
      }
      if e == Eof && frameRemaining > 0 {
        if !stopped { CutFrame(View()); }
        return chunk, UnexpectedEnd;
      }
      if e == Eof {
        if !stopped { CleanEnd(View()); }
        return chunk, End;
      }
      return chunk, if e == Failed then SourceFailed else Fine;
    }

    /** Reads a size and checks it; an accepted one opens its frame. */
    method OpenHeader() returns (err: BodyError)
      requires Valid() && prefixOffset == 4 && frameRemaining == 0
      modifies this, source
      ensures Valid() && delivered == old(delivered)
      ensures err.Fine? ==> stopped == old(stopped) && prefixOffset == 0 && frameRemaining > 0
      ensures old(stopped) ==> stopped
      ensures !old(stopped) && err.End? ==> Framed(source.data, 0, maxFrame, maxBody) && delivered == source.data
      ensures !old(stopped) && err.BadFraming() ==> FirstFault(source.data, 0, maxFrame, maxBody) == Some(err)
      ensures Blamed(old(source.failures), old(source.stalls), err)
      ensures source.patience <= old(source.patience)
    {
      hide Consistent, Framed, FirstFault, BigEndian32;
      ghost var before := View();
      var bytes, e := ReadPrefix();
      assert |bytes| == 4 ==> bytes + prefix[|bytes|..] == bytes;
      prefix := bytes + prefix[|bytes|..];
      var frameSize := BigEndian32(prefix);
      err := if !e.Fine? then e
             else if frameSize == 0 then EmptyFrame
             else if frameSize > maxFrame then FrameTooLarge
             else if 4 + frameSize > maxBody - wireSize then BodyTooLarge
             else Fine;
      if !stopped { HeaderDecides(before, bytes, e, frameSize, err); }
      if !err.Fine? {
        stopped := true;
        return;
      }
      wireSize := wireSize + 4 + frameSize;
      prefixOffset := 0;
      frameRemaining := frameSize;
    }

    /** Checks the next size before any byte of its frame is delivered. */
    method ReadHeader(size: nat) returns (chunk: seq<byte>, err: BodyError)
      requires Valid() && prefixOffset == 4 && frameRemaining == 0 && size > 0
      modifies this, source
      ensures Valid() && delivered == old(delivered) + chunk && |chunk| <= size
      ensures err.Fine? ==> stopped == old(stopped) && chunk != []
      ensures old(stopped) ==> stopped
      ensures !old(stopped) && err.End? ==> Framed(source.data, 0, maxFrame, maxBody) && delivered == source.data
      ensures !old(stopped) && err.BadFraming() ==> FirstFault(source.data, 0, maxFrame, maxBody) == Some(err)
      ensures Blamed(old(source.failures), old(source.stalls), err)
      ensures source.patience <= old(source.patience)
    {
      hide Consistent, Framed, FirstFault;
      err := OpenHeader();
      if !err.Fine? {
        return [], err;
      }
      chunk := Deliver(size);
    }

    /** Delivers what fits of the size bytes. */
    method Deliver(size: nat) returns (chunk: seq<byte>)
      requires Valid() && prefixOffset < 4 && size > 0
      modifies this`prefixOffset, this`delivered
      ensures Valid() && delivered == old(delivered) + chunk && 0 < |chunk| <= size
    {
      hide Consistent, Framed, FirstFault;
      var n := Min(size, |prefix| - prefixOffset);
      chunk := prefix[prefixOffset..prefixOffset + n];
      if !stopped { DeliverPrefix(View(), n); }
      prefixOffset := prefixOffset + n;
      delivered := delivered + chunk;
    }

    /** One read into a buffer of `size` bytes. Once a size was refused, reads are no longer bound to frames. */
    method Read(size: nat) returns (chunk: seq<byte>, err: BodyError)
      requires Valid()
      modifies this, source
      ensures Valid() && delivered == old(delivered) + chunk && |chunk| <= size
        && source.patience <= old(source.patience)
      ensures err.Fine? ==> stopped == old(stopped) && (!stopped && size > 0 ==> chunk != [])
      ensures old(stopped) ==> stopped
      ensures !old(stopped) && err.End? ==> Framed(source.data, 0, maxFrame, maxBody) && delivered == source.data
      ensures !old(stopped) && err.BadFraming() ==> FirstFault(source.data, 0, maxFrame, maxBody) == Some(err)
      ensures Blamed(old(source.failures), old(source.stalls), err)
      ensures !stopped ==> |delivered| + (4 - prefixOffset) + frameRemaining == wireSize <= maxBody
      ensures !stopped ==> |delivered| <= |source.data|
    {
      hide Consistent, Framed, FirstFault;
      chunk, err := [], Fine;
      if size > 0 {
        if prefixOffset < |prefix| {
          chunk := Deliver(size);
        } else if frameRemaining > 0 {
          chunk, err := ReadFrame(size);
        } else {
          chunk, err := ReadHeader(size);
        }
      }
      if !stopped {
        AccountedFor(View());
        DeliveredBound(View());
      }
    }
  }

  lemma DeliveredBound(p: Position)
    requires Consistent(p)
    ensures |p.delivered| <= |p.data| && |p.prefix| == 4 && p.prefixOffset <= 4
  {
    assert |p.delivered + p.prefix[p.prefixOffset..]| == p.pos;
  }

  /** Reads to the first error with buffers of the given sizes in turn, then of one byte. When the source neither
      failed nor returned nothing meanwhile, the end is clean exactly for well framed bytes, all of them delivered. */
  method Drain(body: ValidatedEHBPBody, sizes: seq<nat>) returns (content: seq<byte>, err: BodyError)
    requires body.Valid() && !body.stopped && body.delivered == []
    modifies body, body.source
    ensures body.Valid() && content == body.delivered && !err.Fine?
    ensures err.End? ==> Framed(body.source.data, 0, body.maxFrame, body.maxBody) && content == body.source.data
    ensures err.BadFraming() ==>
      FirstFault(body.source.data, 0, body.maxFrame, body.maxBody) == Some(err)
    ensures body.Blamed(old(body.source.failures), old(body.source.stalls), err)
    ensures body.source.failures == old(body.source.failures) && body.source.stalls == old(body.source.stalls) ==>
      (err.End? <==> Framed(body.source.data, 0, body.maxFrame, body.maxBody))
  {
    content := [];
    err := Fine;
    var i := 0;
    while err.Fine?
      invariant body.Valid() && content == body.delivered && 0 <= i
      invariant err.Fine? ==> !body.stopped && |content| <= |body.source.data|
      invariant err.End? ==> Framed(body.source.data, 0, body.maxFrame, body.maxBody) && content == body.source.data
      invariant err.BadFraming() ==>
      FirstFault(body.source.data, 0, body.maxFrame, body.maxBody) == Some(err)
      invariant body.Blamed(old(body.source.failures), old(body.source.stalls), err)
      decreases err.Fine?, |body.source.data| - |content|, |sizes| - i
    {
      var size := if i < |sizes| then sizes[i] else 1;
      var chunk, e := body.Read(size);
      content := content + chunk;
      err := e;
      i := i + 1;
    }
    FramedIffNoFault(body.source.data, 0, body.maxFrame, body.maxBody);
  }
}
