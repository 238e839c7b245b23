/**
 * The request parser of a connection as functions of its state: the read
 * buffer with its three cursors, the main state machine, and the loop of
 * ProcessRead that feeds it one tokenized line at a time.
 */
module RequestParser {
  import opened Wrappers
  import opened Bytes
  import opened HttpDefs
  import opened LineScanner
  import opened RequestLine
  import opened HeaderLine

  /**
   * The parser's part of a connection: the read buffer, its three cursors,
   * the state machine's state and what has been parsed so far. `url`,
   * `version` and `host` are indices into `buf` (None stands for a null
   * pointer).
   */
  datatype Parser = Parser(
    buf: seq<byte>,
    readIdx: nat, checkIdx: nat, lineStart: nat,
    state: CheckState, requestMethod: Method,
    url: Option<nat>, version: Option<nat>, host: Option<nat>,
    linger: bool, contentLen: int)
  {
    /** The buffer's size, the cursor order, and a target once past the request line. */
    predicate Valid() {
      |buf| == ReadBufSize
      && lineStart <= checkIdx <= readIdx <= |buf|
      && (state != CheckRequestLine ==> url.Some?)
    }
  }

  /**
   * The parser after `Init()`: an all-zero buffer, cursors at 0, the
   * request line expected, GET, no target, no linger, no length. `host_`
   * is not reset by `Init()` and keeps its old value.
   */
  function Cleared(host: Option<nat>): (p: Parser)
    ensures p.Valid() && p.state == CheckRequestLine && p.readIdx == 0
    ensures forall i :: 0 <= i < |p.buf| ==> p.buf[i] == NUL
  {
    Parser(Zeros(), 0, 0, 0, CheckRequestLine, Get, None, None, host, false, 0)
  }

  /** A read buffer of NUL bytes. */
  function Zeros(): (z: seq<byte>)
    ensures |z| == ReadBufSize
  {
    seq(ReadBufSize, _ => NUL)
  }

  /** What a sub-parser returns, and the state it leaves. */
  datatype Step = Step(code: HttpCode, p: Parser)

  /** The bytes `recv` delivers land at `readIdx`, which advances past them; nothing else moves. */
  function Receive(p: Parser, data: seq<byte>): (q: Parser)
    requires p.Valid() && p.readIdx + |data| <= |p.buf|
    ensures q.Valid() && |q.buf| == |p.buf| && q.readIdx == p.readIdx + |data|
    ensures q.buf[..p.readIdx] == p.buf[..p.readIdx]
    ensures q.buf[p.readIdx..q.readIdx] == data
    ensures q.buf[q.readIdx..] == p.buf[q.readIdx..]
    ensures q == p.(buf := q.buf, readIdx := q.readIdx)
  {
    var b := p.buf[..p.readIdx] + data + p.buf[p.readIdx + |data|..];
    assert b[..p.readIdx] == p.buf[..p.readIdx];
    assert b[p.readIdx..p.readIdx + |data|] == data;
    assert b[p.readIdx + |data|..] == p.buf[p.readIdx + |data|..];
    p.(buf := b, readIdx := p.readIdx + |data|)
  }

  /** Two deliveries in a row store the same as one delivery of both. */
  lemma ReceiveAppend(p: Parser, a: seq<byte>, b: seq<byte>)
    requires p.Valid() && p.readIdx + |a| + |b| <= |p.buf|
    ensures Receive(Receive(p, a), b) == Receive(p, a + b)
  {
    var q := Receive(Receive(p, a), b);
    var r := Receive(p, a + b);
    assert q.buf == r.buf;
  }

  // ---------------------------------------------------------------------
  // One line at a time

  /** The state ParseRequestLine leaves, given what it did to the line. */
  function ApplyRequestLine(p: Parser, o: LineResult): (r: Step)
    requires p.Valid() && p.state == CheckRequestLine && |o.buf| == |p.buf|
    requires o.code == NoRequest ==> o.url.Some?
    ensures r.p.Valid()
    ensures r.code == o.code
  {
    Step(o.code, p.(
      buf := o.buf,
      url := o.url,
      requestMethod := if o.isGet then Get else p.requestMethod,
      version := if o.isGet then o.version else p.version,
      state := if o.code == NoRequest then CheckHeader else p.state))
  }

  /** ParseRequestLine on the line at `lineStart`, with the missing null check added. */
  function RequestLineStep(p: Parser): (r: Step)
    requires p.Valid() && p.state == CheckRequestLine && CStrEnd(p.buf, p.lineStart) < |p.buf|
    ensures r.p.Valid()
    ensures r.p.readIdx == p.readIdx && r.p.checkIdx == p.checkIdx && r.p.lineStart == p.lineStart
    ensures r.code == NoRequest || r.code == BadRequest
    ensures r.p.state == (if r.code == NoRequest then CheckHeader else CheckRequestLine)
  {
    ApplyRequestLine(p, ParseRequestLine(p.buf, p.lineStart))
  }

  /**
   * ParseHeader on the line at `lineStart`. The empty line completes the
   * request, unless a non-zero Content-Length (negative ones included)
   * calls for a body; a line without a colon is rejected; a field updates
   * the one member its key names.
   */
  function HeaderStep(p: Parser): (r: Step)
    requires p.Valid() && p.state == CheckHeader && p.lineStart < |p.buf|
    ensures r.p.Valid()
    ensures r.p.readIdx == p.readIdx && r.p.checkIdx == p.checkIdx && r.p.lineStart == p.lineStart
    ensures r.code == NoRequest || r.code == BadRequest || r.code == GetRequest
    ensures r.p.state != CheckRequestLine && r.p.url == p.url
  {
    ApplyHeader(p, ParseHeaderLine(p.buf, p.lineStart))
  }

  /** The state ParseHeader leaves, given what the line did. */
  function ApplyHeader(p: Parser, h: HeaderResult): (r: Step)
    requires p.Valid() && p.state == CheckHeader && |h.buf| == |p.buf|
    ensures r.p.Valid()
    ensures r.p.readIdx == p.readIdx && r.p.checkIdx == p.checkIdx && r.p.lineStart == p.lineStart
    ensures r.code == NoRequest || r.code == BadRequest || r.code == GetRequest
    ensures r.p.state != CheckRequestLine && r.p.url == p.url
  {
    match h.effect
    case EndOfHeaders =>
      if p.contentLen != 0 then Step(NoRequest, p.(state := CheckContent)) else Step(GetRequest, p)
    case Malformed => Step(BadRequest, p)
    case SetHost(v) => Step(NoRequest, p.(buf := h.buf, host := Some(v)))
    case SetLinger => Step(NoRequest, p.(buf := h.buf, linger := true))
    case SetContentLength(n) => Step(NoRequest, p.(buf := h.buf, contentLen := n))
    case NoEffect => Step(NoRequest, p.(buf := h.buf))
  }

  /**
   * ParseContent as written: the body counts as complete once `readIdx`
   * reaches `contentLen` bytes past `checkIdx`, and a NUL is then written
   * at `lineStart + contentLen`. None stands for that write falling
   * outside the buffer.
   */
  function ContentStepAsWritten(p: Parser): (r: Option<Step>)
    requires p.Valid()
    ensures r.Some? ==> r.value.p.Valid() && r.value.p == p.(buf := r.value.p.buf)
    ensures r.Some? ==> r.value.code == (if p.readIdx >= p.contentLen + p.checkIdx then GetRequest else NoRequest)
  {
    if p.readIdx >= p.contentLen + p.checkIdx then
      var k := p.lineStart + p.contentLen;
      if 0 <= k < |p.buf| then Some(Step(GetRequest, p.(buf := p.buf[k := NUL]))) else None
    else Some(Step(NoRequest, p))
  }

  /** The body, `contentLen` bytes from `lineStart`, fits in the buffer with its terminator. */
  predicate BodyFits(p: Parser) {
    0 <= p.contentLen && p.lineStart + p.contentLen < ReadBufSize
  }

  /**
   * ParseContent as intended: the body starts at `lineStart`, so it is
   * complete once `readIdx` reaches `lineStart + contentLen`; it is then
   * terminated by a NUL. A negative length, or one the buffer cannot hold,
   * is a bad request.
   */
  function ContentStep(p: Parser): (r: Step)
    requires p.Valid()
    ensures r.p.Valid()
    ensures r.code == NoRequest || r.code == BadRequest || r.code == GetRequest
    ensures r.code == GetRequest ==> r.p == p.(buf := r.p.buf)
    ensures r.code != GetRequest ==> r.p == p
  {
    if !BodyFits(p) then Step(BadRequest, p)
    else if p.readIdx >= p.lineStart + p.contentLen then
      Step(GetRequest, p.(buf := p.buf[p.lineStart + p.contentLen := NUL]))
    else Step(NoRequest, p)
  }

  // ---------------------------------------------------------------------
  // The driving loop

  /** The state after the tokenizer accepted a line ending just before `k`. */
  function Terminated(p: Parser, k: nat): (q: Parser)
    requires p.Valid() && p.checkIdx < k <= p.readIdx && 2 <= k
    ensures q.Valid() && q.checkIdx == k
  {
    p.(buf := Terminate(p.buf, k), checkIdx := k)
  }

  /**
   * ProcessRead's loop up to the point where it would resolve the target,
   * with the corrected request-line and body checks: GetRequest here means
   * "complete, go to DoRequest". In the body state no line is tokenized:
   * the loop only asks whether the body has arrived.
   */
  function ParseLoop(p: Parser): (r: Step)
    requires p.Valid()
    ensures r.p.Valid() && r.p.readIdx == p.readIdx
    ensures r.code == NoRequest || r.code == BadRequest || r.code == GetRequest
    ensures r.code == GetRequest ==> r.p.state != CheckRequestLine
    ensures p.state != CheckRequestLine ==> r.p.state != CheckRequestLine
    decreases p.readIdx - p.checkIdx
  {
    if p.state == CheckContent then ContentStep(p)
    else
      var s := ScanLine(p.buf, p.checkIdx, p.readIdx);
      if s.status == LineOpen then Step(NoRequest, p.(checkIdx := s.check))
      else if s.status == LineBad then Step(BadRequest, p.(checkIdx := s.check))
      else
        var p0 := Terminated(p, s.check);
        CStrEndBound(p0.buf, p0.lineStart, s.check - 1);
        var c := if p0.state == CheckRequestLine then RequestLineStep(p0) else HeaderStep(p0);
        if c.code != NoRequest then c
        else ParseLoop(c.p.(lineStart := c.p.checkIdx))
  }

  /**
   * The switch of ProcessRead's loop, as written, on a line the tokenizer
   * accepted: the sub-parser of the current state runs. None stands for a
   * write through a null pointer (a request line without a space) or
   * outside the buffer (the body check).
   */
  function LineAsWritten(p: Parser): (r: Option<Step>)
    requires p.Valid() && CStrEnd(p.buf, p.lineStart) < |p.buf|
    ensures r.Some? ==> r.value.p.Valid() && r.value.p.readIdx == p.readIdx && r.value.p.checkIdx == p.checkIdx
    ensures r.Some? && r.value.code == GetRequest ==> r.value.p.state != CheckRequestLine
  {
    match p.state
    case CheckRequestLine =>
      (match RequestLineAsWritten(p.buf, p.lineStart)
       case None => None
       case Some(o) => Some(ApplyRequestLine(p, o)))
    case CheckHeader => Some(HeaderStep(p))
    case CheckContent => ContentStepAsWritten(p)
  }

  /** Where one pass of ProcessRead's loop leads: out of the loop with its result, or on with the next state. */
  datatype Pass = Stop(result: Option<Step>) | Go(next: Parser, ls: LineStatus)

  /**
   * One pass of ProcessRead's loop as written. `ls` is the loop's
   * `line_state`: in the body state with LINE_OK the loop checks the body
   * without tokenizing first; otherwise ParseLine runs, and an open or bad
   * line leaves the loop. A step that answers anything but NoRequest ends
   * the loop with that answer; after an incomplete body the loop goes on
   * with LINE_OPEN, so the body bytes are then tokenized as lines.
   */
  function PassAsWritten(p: Parser, ls: LineStatus): (m: Pass)
    requires p.Valid() && ls != LineBad
    ensures m.Go? ==> m.next.Valid() && m.ls != LineBad && m.next.readIdx == p.readIdx
    ensures m.Go? ==> m.next.checkIdx > p.checkIdx
                      || (m.next.checkIdx == p.checkIdx && p.state == CheckContent && ls == LineOk && m.ls == LineOpen)
    ensures m.Stop? && m.result.Some? ==> m.result.value.p.Valid() && m.result.value.p.readIdx == p.readIdx
    ensures m.Stop? && m.result.Some? && m.result.value.code == GetRequest ==> m.result.value.p.state != CheckRequestLine
  {
    if p.state == CheckContent && ls == LineOk then
      match ContentStepAsWritten(p)
      case None => Stop(None)
      case Some(c) =>
        if c.code != NoRequest then Stop(Some(c)) else Go(c.p.(lineStart := c.p.checkIdx), LineOpen)
    else
      var s := ScanLine(p.buf, p.checkIdx, p.readIdx);
      if s.status == LineOpen then Stop(Some(Step(NoRequest, p.(checkIdx := s.check))))
      else if s.status == LineBad then Stop(Some(Step(BadRequest, p.(checkIdx := s.check))))
      else
        var p0 := Terminated(p, s.check);
        CStrEndBound(p0.buf, p0.lineStart, s.check - 1);
        LinePass(p0)
  }

  /** The switch of ProcessRead's loop on a line just terminated, and where the loop goes next. */
  function LinePass(p: Parser): (m: Pass)
    requires p.Valid() && CStrEnd(p.buf, p.lineStart) < |p.buf|
    ensures m.Go? ==> m.next.Valid() && m.ls != LineBad && m.next.readIdx == p.readIdx && m.next.checkIdx == p.checkIdx
    ensures m.Stop? && m.result.Some? ==> m.result.value.p.Valid() && m.result.value.p.readIdx == p.readIdx
    ensures m.Stop? && m.result.Some? && m.result.value.code == GetRequest ==> m.result.value.p.state != CheckRequestLine
  {
    match LineAsWritten(p)
    case None => Stop(None)
    case Some(c) =>
      if c.code != NoRequest then Stop(Some(c))
      else Go(c.p.(lineStart := c.p.checkIdx), if p.state == CheckContent then LineOpen else LineOk)
  }

  /**
   * ProcessRead's loop exactly as written, from `line_state` `ls` (LINE_OK
   * on entry). None stands for a write through a null pointer or outside
   * the buffer somewhere along the way.
   */
  function ParseLoopAsWritten(p: Parser, ls: LineStatus): (r: Option<Step>)
    requires p.Valid() && ls != LineBad
    ensures r.Some? ==> r.value.p.Valid() && r.value.p.readIdx == p.readIdx
    ensures r.Some? && r.value.code == GetRequest ==> r.value.p.state != CheckRequestLine
    decreases p.readIdx - p.checkIdx, if p.state == CheckContent && ls == LineOk then 1 else 0
  {
    match PassAsWritten(p, ls)
    case Stop(r) => r
    case Go(q, l) => ParseLoopAsWritten(q, l)
  }
}

/**
 * What the parser's steps mean: a header line read as text, the body check
 * against the code as written, and the two places where the code as
 * written goes wrong.
 */
module ParserProps {
  import opened Wrappers
  import opened Bytes
  import opened HttpDefs
  import opened LineScanner
  import opened HeaderLine
  import opened RequestParser

  /**
   * A header line changes exactly the member its key names. The empty line
   * completes the request unless a non-zero Content-Length calls for a
   * body. A line without a colon is rejected and changes nothing. Any
   * other line has its first colon cut; `Connection: keep-alive` sets
   * `linger_`, and nothing clears it; `Content-Length` overwrites the
   * length with the `atoi` of its value; `Host` records where its value
   * starts.
   */
  lemma HeaderStepSpec(p: Parser)
    requires p.Valid() && p.state == CheckHeader && p.lineStart < |p.buf|
    ensures var r := HeaderStep(p);
      var line := CStr(p.buf, p.lineStart);
      && (line == [] ==>
            && r.code == (if p.contentLen != 0 then NoRequest else GetRequest)
            && r.p == (if p.contentLen != 0 then p.(state := CheckContent) else p))
      && (line != [] && COLON !in line ==> r.code == BadRequest && r.p == p)
      && (line != [] && COLON in line ==>
            var i := FirstColon(line);
            var key := line[..i];
            var value := FieldValue(p.buf, p.lineStart, i);
            FieldApplied(p, HeaderStep(p), p.buf[p.lineStart + i := NUL], key, value, p.lineStart + i + 2))
  {
    var line := CStr(p.buf, p.lineStart);
    ParseHeaderLineSpec(p.buf, p.lineStart);
    if line != [] && COLON in line {
      HeaderFieldSpec(p);
    }
  }

  /** `HeaderStepSpec` for a line with a colon. */
  lemma HeaderFieldSpec(p: Parser)
    requires p.Valid() && p.state == CheckHeader && p.lineStart < |p.buf| && COLON in CStr(p.buf, p.lineStart)
    ensures var line := CStr(p.buf, p.lineStart);
      var i := FirstColon(line);
      var value := FieldValue(p.buf, p.lineStart, i);
      FieldApplied(p, HeaderStep(p), p.buf[p.lineStart + i := NUL], line[..i], value, p.lineStart + i + 2)
  {
    var line := CStr(p.buf, p.lineStart);
    IndexOfSpec(line, COLON);
    var i := FirstColon(line);
    assert IndexOf(line, COLON) == Some(i);
    FieldLineSpec(p.buf, p.lineStart, i);
    var value := FieldValue(p.buf, p.lineStart, i);
    ApplyFieldSpec(p, p.buf[p.lineStart + i := NUL], line[..i], value, p.lineStart + i + 2);
  }

  /**
   * A field line with key `key` and value `value` (at index `at`) left
   * buffer `b`: only the member the key names changes, and the cursors,
   * the state, the method, `url_` and `version_` stay as they were.
   */
  predicate FieldApplied(p: Parser, r: Step, b: seq<byte>, key: seq<byte>, value: seq<byte>, at: nat) {
    && r.code == NoRequest && r.p.state == CheckHeader
    && r.p == p.(buf := b, host := r.p.host, linger := r.p.linger, contentLen := r.p.contentLen)
    && r.p.linger == (p.linger || (CaseEq(key, KeyConnection) && CaseEq(value, TokenKeepAlive)))
    && r.p.contentLen == (if CaseEq(key, KeyContentLength) then Atoi(value) else p.contentLen)
    && r.p.host == (if CaseEq(key, KeyHost) then Some(at) else p.host)
  }

  /** `HeaderStepSpec` for a field line, once ParseHeader has read it. */
  lemma ApplyFieldSpec(p: Parser, b: seq<byte>, key: seq<byte>, value: seq<byte>, at: nat)
    requires p.Valid() && p.state == CheckHeader && |b| == |p.buf|
    ensures FieldApplied(p, ApplyHeader(p, HeaderResult(b, FieldEffect(key, value, at))), b, key, value, at)
  {
  }

  /** Index of the first colon of a line that has one. */
  function FirstColon(line: seq<byte>): (i: nat)
    requires COLON in line
    ensures i < |line| && line[i] == COLON && COLON !in line[..i]
  {
    IndexOfSpec(line, COLON);
    IndexOf(line, COLON).value
  }

  /**
   * Right after the headers, when the check cursor is still at the start of
   * the body, the body check as written and the corrected one agree on
   * every length the buffer can hold.
   */
  lemma ContentStepAgreesAtBodyStart(p: Parser)
    requires p.Valid() && p.checkIdx == p.lineStart && BodyFits(p)
    ensures ContentStepAsWritten(p) == Some(ContentStep(p))
  {
  }

  /**
   * The corrected body check completes exactly when the whole body has
   * arrived, terminates it right after its last byte and changes nothing
   * else; an unusable length is rejected.
   */
  lemma ContentStepSpec(p: Parser)
    requires p.Valid()
    ensures var r := ContentStep(p);
      && (r.code == BadRequest <==> p.contentLen < 0 || p.lineStart + p.contentLen >= ReadBufSize)
      && (r.code == GetRequest <==> BodyFits(p) && p.lineStart + p.contentLen <= p.readIdx)
      && (r.code == GetRequest ==>
            && r.p.buf[p.lineStart..p.lineStart + p.contentLen] == p.buf[p.lineStart..p.lineStart + p.contentLen]
            && r.p.buf[p.lineStart + p.contentLen] == NUL
            && r.p == p.(buf := r.p.buf) && |r.p.buf| == |p.buf|
            && forall i | 0 <= i < |p.buf| && i != p.lineStart + p.contentLen :: r.p.buf[i] == p.buf[i])
      && (r.code != GetRequest ==> r.p == p)
  {
  }

  /**
   * A body split over two reads never completes as written: the first
   * check finds it incomplete and the tokenizer then advances the check
   * cursor over the bytes that did arrive, so once the rest arrives the
   * check still asks for `contentLen` more bytes past the cursor. The
   * corrected loop completes the same request.
   */
  lemma SplitBodyStalls(p: Parser, data: seq<byte>)
    requires p.Valid() && p.state == CheckContent && p.checkIdx == p.lineStart
    requires p.lineStart < p.readIdx && 0 < |data| && p.readIdx + |data| == p.lineStart + p.contentLen < ReadBufSize
    requires NoStop(p.buf, p.checkIdx, p.readIdx)
    requires forall i :: 0 <= i < |data| ==> !IsStop(data[i])
    ensures var q := p.(checkIdx := p.readIdx);
      && ParseLoopAsWritten(p, LineOk) == Some(Step(NoRequest, q))
      && ParseLoopAsWritten(Receive(q, data), LineOk)
         == Some(Step(NoRequest, Receive(q, data).(lineStart := p.readIdx, checkIdx := p.lineStart + p.contentLen)))
    ensures ParseLoop(p) == Step(NoRequest, p)
    ensures ParseLoop(Receive(p, data)).code == GetRequest
  {
    FirstReadWaits(p);
    var q := p.(checkIdx := p.readIdx);
    NoStopAfterReceive(q, data);
    SecondReadWaits(Receive(q, data), p.readIdx);
    SplitBodyCompletes(p, data);
  }

  /** The corrected loop waits for the rest of a split body and then completes the request. */
  lemma SplitBodyCompletes(p: Parser, data: seq<byte>)
    requires p.Valid() && p.state == CheckContent
    requires 0 < |data| && p.readIdx + |data| == p.lineStart + p.contentLen < ReadBufSize
    ensures ParseLoop(p) == Step(NoRequest, p)
    ensures ParseLoop(Receive(p, data)).code == GetRequest
  {
    assert ParseLoop(p) == ContentStep(p);
    var p2 := Receive(p, data);
    assert ParseLoop(p2) == ContentStep(p2);
  }

  /** As written, an incomplete body is tokenized: the check cursor moves over it. */
  lemma FirstReadWaits(p: Parser)
    requires p.Valid() && p.state == CheckContent && p.checkIdx == p.lineStart
    requires p.lineStart < p.readIdx < p.lineStart + p.contentLen
    requires NoStop(p.buf, p.checkIdx, p.readIdx)
    ensures ParseLoopAsWritten(p, LineOk) == Some(Step(NoRequest, p.(checkIdx := p.readIdx)))
  {
    ScanLineSpec(p.buf, p.checkIdx, p.readIdx);
  }

  /**
   * As written, once the cursor has moved past the start of the body, the
   * check asks for `contentLen` bytes past the cursor, however many of the
   * body's bytes are buffered.
   */
  lemma SecondReadWaits(q: Parser, mid: nat)
    requires q.Valid() && q.state == CheckContent && q.lineStart < mid == q.checkIdx <= q.readIdx
    requires q.readIdx <= q.lineStart + q.contentLen
    requires NoStop(q.buf, q.checkIdx, q.readIdx)
    ensures ParseLoopAsWritten(q, LineOk) == Some(Step(NoRequest, q.(lineStart := mid, checkIdx := q.readIdx)))
  {
    ScanLineSpec(q.buf, q.checkIdx, q.readIdx);
  }

  /** The received bytes hold no CR or LF when `data` holds none. */
  lemma NoStopAfterReceive(q: Parser, data: seq<byte>)
    requires q.Valid() && q.readIdx + |data| <= |q.buf|
    requires forall i :: 0 <= i < |data| ==> !IsStop(data[i])
    ensures NoStop(Receive(q, data).buf, q.readIdx, q.readIdx + |data|)
  {
    var b := Receive(q, data).buf;
    forall j | q.readIdx <= j < q.readIdx + |data|
      ensures !IsStop(b[j])
    {
      assert b[j] == b[q.readIdx..q.readIdx + |data|][j - q.readIdx];
    }
  }

  /**
   * A negative Content-Length completes the request at once as written and
   * writes its NUL before the body, among the header bytes, or before the
   * buffer itself (None).
   */
  lemma NegativeLengthAsWritten(p: Parser)
    requires p.Valid() && p.state == CheckContent && p.contentLen < 0
    ensures var k := p.lineStart + p.contentLen;
      && k < p.lineStart
      && ParseLoopAsWritten(p, LineOk) == (if 0 <= k then Some(Step(GetRequest, p.(buf := p.buf[k := NUL]))) else None)
  {
    var k := p.lineStart + p.contentLen;
    var c := ContentStepAsWritten(p);
    assert c == if 0 <= k then Some(Step(GetRequest, p.(buf := p.buf[k := NUL]))) else None;
    assert PassAsWritten(p, LineOk) == Stop(c);
    assert ParseLoopAsWritten(p, LineOk) == c;
  }

  /** The corrected body check rejects a negative Content-Length. */
  lemma NegativeLengthRejected(p: Parser)
    requires p.Valid() && p.state == CheckContent && p.contentLen < 0
    ensures ParseLoop(p) == Step(BadRequest, p)
  {
    assert !BodyFits(p);
  }

  /**
   * A body that ends exactly at the end of the read buffer is complete as
   * written, and its NUL goes one byte past the buffer (None).
   */
  lemma FullBufferBodyAsWritten(p: Parser)
    requires p.Valid() && p.state == CheckContent && p.checkIdx == p.lineStart && 0 < p.contentLen
    requires p.lineStart + p.contentLen == p.readIdx == ReadBufSize
    ensures p.readIdx >= p.contentLen + p.checkIdx
    ensures ParseLoopAsWritten(p, LineOk) == None
  {
    assert ContentStepAsWritten(p) == None;
    assert PassAsWritten(p, LineOk) == Stop(None);
  }

  /** The corrected body check rejects a body that leaves no room for its terminator. */
  lemma FullBufferBodyRejected(p: Parser)
    requires p.Valid() && p.state == CheckContent && 0 < p.contentLen
    requires p.lineStart + p.contentLen == ReadBufSize
    ensures ParseLoop(p) == Step(BadRequest, p)
  {
    assert !BodyFits(p);
  }
}
