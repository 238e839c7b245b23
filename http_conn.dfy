/**
 * One HTTP connection as the class the server keeps per socket: the read
 * buffer and the request parser over it, the write buffer and the
 * response builder, and the send bookkeeping. Every method changes the
 * fields in place, as the class does; its contract ties the new state to
 * the functions of the parser, response and send modules.
 *
 * The system calls are inputs: `recv` and `writev` answer from lists of
 * outcomes, `stat` and `open` from a model of the file system, and the
 * epoll registrations a connection asks for are recorded as events.
 */
module HttpConnection {
  import opened Wrappers
  import opened Bytes
  import opened HttpDefs
  import opened LineScanner
  import opened RequestLine
  import opened HeaderLine
  import opened RequestParser
  import opened ParserProps
  import opened Resource
  import opened Response
  import opened VectoredWrite

  /** What a connection asks of epoll: add its socket, remove (and close) it, or re-arm it for input or output. */
  datatype Event = Added(fd: int) | Removed(fd: int) | ArmedIn(fd: int) | ArmedOut(fd: int)

  /** What the socket answers to one `recv`: bytes (none for an orderly shutdown), would-block, or an error. */
  datatype RecvOutcome = Data(bytes: seq<byte>) | Again | Broken

  /** How a Read call ends (None when the answers ran out first) and the bytes it stored. */
  datatype ReadEnd = ReadEnd(ok: Option<bool>, data: seq<byte>)

  /**
   * Read's loop with `room` bytes free: each `recv` asks for all the room
   * left and stores what arrives; would-block ends the call with true; an
   * error or a return of 0 ends it with false. With no room left the
   * request is for 0 bytes, and its 0 reads as the peer closing.
   */
  function RecvRun(room: nat, ins: seq<RecvOutcome>, i: nat): (r: ReadEnd)
    requires i <= |ins|
    decreases |ins| - i
  {
    if i == |ins| then ReadEnd(None, [])
    else if room == 0 then ReadEnd(Some(false), [])
    else match ins[i]
      case Again => ReadEnd(Some(true), [])
      case Broken => ReadEnd(Some(false), [])
      case Data(bytes) =>
        if bytes == [] then ReadEnd(Some(false), [])
        else
          var k := Min(|bytes|, room);
          var rest := RecvRun(room - k, ins, i + 1);
          ReadEnd(rest.ok, bytes[..k] + rest.data)
  }

  /** A Read never stores more than the room it started with. */
  lemma {:induction false} RecvRunFits(room: nat, ins: seq<RecvOutcome>, i: nat)
    requires i <= |ins|
    ensures |RecvRun(room, ins, i).data| <= room
    decreases |ins| - i
  {
    if i < |ins| && room > 0 && ins[i].Data? && ins[i].bytes != [] {
      RecvRunFits(room - Min(|ins[i].bytes|, room), ins, i + 1);
    }
  }

  /** Read: a full buffer fails at once; otherwise the loop runs on the free room. */
  function ReadCall(readIdx: nat, ins: seq<RecvOutcome>): (r: ReadEnd)
    ensures readIdx + |r.data| <= ReadBufSize || r.data == []
  {
    if readIdx >= ReadBufSize then ReadEnd(Some(false), [])
    else RecvRunFits(ReadBufSize - readIdx, ins, 0); RecvRun(ReadBufSize - readIdx, ins, 0)
  }

  /** The bytes stored before a point of the Read, then what the rest of it does. */
  function Prepend(got: seq<byte>, rest: ReadEnd): (r: ReadEnd)
    ensures r.ok == rest.ok && |r.data| == |got| + |rest.data|
  {
    ReadEnd(rest.ok, got + rest.data)
  }

  /** A Read that ends without storing more has stored what it got so far. */
  lemma PrependNothing(got: seq<byte>, ok: Option<bool>)
    ensures Prepend(got, ReadEnd(ok, [])) == ReadEnd(ok, got)
  {
    assert got + [] == got;
  }

  /** Bytes that arrive are stored after those of the earlier answers, and the rest of the Read goes on from there. */
  lemma PrependData(got: seq<byte>, bytes: seq<byte>, next: ReadEnd)
    ensures Prepend(got, ReadEnd(next.ok, bytes + next.data)) == Prepend(got + bytes, next)
  {
    assert got + (bytes + next.data) == (got + bytes) + next.data;
  }

  /** HeaderStep on a field line whose first colon is at `c`: the colon becomes NUL and the field applies. */
  lemma FieldLine(p: Parser, c: nat)
    requires p.Valid() && p.state == CheckHeader && p.lineStart < |p.buf| && p.buf[p.lineStart] != NUL
    requires StrChr(p.buf, p.lineStart, COLON) == Some(c)
    ensures var b := p.buf[c := NUL];
      HeaderStep(p) == ApplyHeader(p, HeaderResult(b, FieldEffect(CStr(b, p.lineStart), CStr(b, c + 2), c + 2)))
  {
    var b := p.buf[c := NUL];
    assert ParseHeaderLine(p.buf, p.lineStart) == HeaderResult(b, FieldEffect(CStr(b, p.lineStart), CStr(b, c + 2), c + 2));
  }

  /** A step that applies a field as FieldApplied says is the header step. */
  lemma FieldStepIs(p: Parser, r: Step, b: seq<byte>, key: seq<byte>, value: seq<byte>, at: nat)
    requires p.Valid() && p.state == CheckHeader && |b| == |p.buf|
    requires FieldApplied(p, r, b, key, value, at)
    ensures r == ApplyHeader(p, HeaderResult(b, FieldEffect(key, value, at)))
  {
    ApplyFieldSpec(p, b, key, value, at);
  }

  /** ProcessRead's loop is one pass, then the rest of the loop from where the pass leads. */
  lemma LoopUnfold(p: Parser, ls: LineStatus)
    requires p.Valid() && ls != LineBad
    ensures ParseLoopAsWritten(p, ls) == match PassAsWritten(p, ls)
      case Stop(r) => r
      case Go(q, l) => ParseLoopAsWritten(q, l)
  {
  }

  /** The request line as the class leaves it, read as a parser step. */
  lemma RequestLineApplied(p: Parser, q: Parser, code: HttpCode, o: LineResult)
    requires p.Valid() && p.state == CheckRequestLine && |o.buf| == |p.buf| && (o.code == NoRequest ==> o.url.Some?)
    requires code == o.code && q.buf == o.buf && q.url == o.url
    requires q.requestMethod == (if o.isGet then Get else p.requestMethod)
    requires q.version == (if o.isGet then o.version else p.version)
    requires q.state == (if o.code == NoRequest then CheckHeader else p.state)
    requires q == p.(buf := q.buf, url := q.url, requestMethod := q.requestMethod, version := q.version, state := q.state)
    ensures Step(code, q) == ApplyRequestLine(p, o)
  {
  }

  /** How Write ends after the `writev` that stops its loop. */
  function EndOf(w: Writev): WriteEnd {
    match w
    case Blocked => Rearm
    case Error => HardError
    case Wrote(_) => AllSent
  }

  /** A count sent by the `i`-th `writev` of Write's loop: it lowers `bytes_left_`, and the loop ends there or goes on. */
  lemma SendStep(v: Vec, head: nat, size: nat, outs: seq<SendOutcome>, i: nat, k: nat, got: seq<int>, r: Progress)
    requires i < |outs| && WritevCall(v, head, outs[i]) == Wrote(k)
    requires var rest := WriteAsWritten(v, head, size, outs[i..]); r == Progress(rest.end, rest.v, got + rest.wire)
    ensures var sent := Described(v, head)[..k];
      var v1 := v.(bytesLeft := v.bytesLeft - k);
      var rest := WriteAsWritten(v1, head, size, outs[i + 1..]);
      if v1.bytesLeft == 0 then r == Progress(Some(AllSent), v1, got + sent)
      else r == Progress(rest.end, rest.v, got + sent + rest.wire)
  {
    assert outs[i..][1..] == outs[i + 1..];
    var sent := Described(v, head)[..k];
    var rest := WriteAsWritten(v.(bytesLeft := v.bytesLeft - k), head, size, outs[i + 1..]);
    assert got + (sent + rest.wire) == got + sent + rest.wire;
  }

  /** What ProcessRead returns once the parser has stopped at `r`: a complete GET request resolved to a file or an error. */
  function ReadCode(r: Step, fs: FileSystem): HttpCode
    requires r.p.Valid() && (r.code == GetRequest ==> r.p.state != CheckRequestLine)
  {
    if r.code == GetRequest then Resolve(TargetPath(CStr(r.p.buf, r.p.url.value)), fs).code else r.code
  }

  /**
   * The path, the `stat` record and the mapping flag after ProcessRead
   * stopped at `r`, from those before: a complete GET request builds the
   * path and resolves it (`stat` keeps its old record when the call
   * failed, and a mapping stays until it is released); anything else
   * leaves all three alone.
   */
  ghost function Looked(r: Step, fs: FileSystem, path0: seq<byte>, stat0: FileInfo, mapped0: bool): (seq<byte>, FileInfo, bool)
    requires r.p.Valid() && (r.code == GetRequest ==> r.p.state != CheckRequestLine)
  {
    if r.code == GetRequest then
      var path := TargetPath(CStr(r.p.buf, r.p.url.value));
      var res := Resolve(path, fs);
      (path, if res.stat.Some? then res.stat.value else stat0, mapped0 || res.mapped)
    else (path0, stat0, mapped0)
  }

  /** The epoll requests after CloseConn on descriptor `fd`: a removal, unless it was already closed. */
  function ClosedEvents(fd: int, ev: seq<Event>): seq<Event> {
    if fd != -1 then ev + [Removed(fd)] else ev
  }

  /** The number of live connections, shared by all of them. */
  class ConnCounter {
    var users: int

    constructor ()
      ensures users == 0
    {
      users := 0;
    }
  }

  class HttpConn {
    var sockFd: int
    const counter: ConnCounter
    var readBuf: seq<byte>
    var writeBuf: seq<byte>

    var readIdx: nat
    var checkIdx: nat
    var lineStart: nat
    var state: CheckState
    var requestMethod: Method
    var url: Option<nat>
    var version: Option<nat>
    var host: Option<nat>
    var linger: bool
    var contentLen: int

    /** The path DoRequest built last. */
    var targetPath: seq<byte>
    /** What `stat` last wrote into `file_stat_`. */
    var fileStat: FileInfo
    /** Whether `file_mem_addr_` holds a mapping. */
    var mapped: bool

    var writeIdx: nat
    var iv0: Iovec
    var iv1: Iovec
    var ivCount: nat
    var bytesLeft: int

    /** The epoll requests made for this connection, in order. */
    ghost var events: seq<Event>
    /** The stream positions of the current response sent so far, in order. */
    ghost var wire: seq<int>

    /** The parser's view of the connection. */
    function ReadSide(): Parser
      reads this
    {
      Parser(readBuf, readIdx, checkIdx, lineStart, state, requestMethod, url, version, host, linger, contentLen)
    }

    /** The write buffer and `write_idx_`. */
    function WriteSide(): Out
      reads this
    {
      Out(writeBuf, writeIdx)
    }

    /** `iv_`, `iv_count_` and `bytes_left_`. */
    function SendSide(): Vec
      reads this
    {
      Vec(iv0, iv1, ivCount, bytesLeft)
    }

    /** The buffers' sizes and the cursor order: `ReadSide()` and `WriteSide()` are valid. */
    predicate Valid()
      reads this
    {
      && |readBuf| == ReadBufSize && |writeBuf| == WriteBufSize
      && lineStart <= checkIdx <= readIdx <= ReadBufSize && (state != CheckRequestLine ==> url.Some?)
      && writeIdx <= WriteBufSize - 2
    }

    /**
     * A connection object before its socket is attached. `HttpConn() {}`
     * initialises nothing. The members that `Init(sock_fd, addr)` never
     * overwrites (`host_`, `file_stat_`, `iv_`, `iv_count_` and the
     * write buffer's bytes) are parameters here, and so are the read
     * buffer's bytes, which it zeroes. The others start at the
     * values `Init(sock_fd, addr)` gives them, which it overwrites before
     * the object is used. The descriptor starts at -1 and the path empty.
     */
    constructor (counter: ConnCounter, readBuf: seq<byte>, writeBuf: seq<byte>, host: Option<nat>, fileStat: FileInfo,
                 iv0: Iovec, iv1: Iovec, ivCount: nat)
      requires |readBuf| == ReadBufSize && |writeBuf| == WriteBufSize
      ensures Valid() && this.readBuf == readBuf && this.writeBuf == writeBuf && this.counter == counter && sockFd == -1 && !mapped
      ensures this.host == host && this.fileStat == fileStat
      ensures SendSide() == Vec(iv0, iv1, ivCount, 0) && events == [] && wire == []
    {
      this.counter := counter;
      this.readBuf, this.writeBuf := readBuf, writeBuf;
      sockFd := -1;
      readIdx, checkIdx, lineStart := 0, 0, 0;
      state, requestMethod := CheckRequestLine, Get;
      url, version, this.host := None, None, host;
      linger, contentLen := false, 0;
      targetPath, this.fileStat, mapped := [], fileStat, false;
      writeIdx := 0;
      this.iv0, this.iv1, this.ivCount, bytesLeft := iv0, iv1, ivCount, 0;
      events, wire := [], [];
    }

    /**
     * `Init()`: the parser back to its start over an all-zero buffer, the
     * mapping pointer dropped, the write buffer and `bytes_left_` emptied.
     * `host_`, the iovec, `iv_count_` and `file_stat_` keep their values.
     */
    method Init()
      requires Valid()
      modifies this`readIdx, this`checkIdx, this`lineStart, this`state, this`requestMethod, this`url,
        this`version, this`linger, this`contentLen, this`mapped, this`writeIdx, this`bytesLeft, this`readBuf
      ensures Valid()
      ensures ReadSide() == Cleared(old(host))
      ensures !mapped && writeIdx == 0 && bytesLeft == 0
    {
      ResetParser();
      ResetResponse();
      ZeroReadBuf();
    }

    /** The cursors and the parsed request fields back to their start. */
    method ResetParser()
      modifies this`readIdx, this`checkIdx, this`lineStart, this`state, this`requestMethod, this`url,
        this`version, this`linger, this`contentLen
      ensures readIdx == 0 && checkIdx == 0 && lineStart == 0 && state == CheckRequestLine
      ensures requestMethod == Get && url == None && version == None && !linger && contentLen == 0
    {
      readIdx, checkIdx, lineStart := 0, 0, 0;
      state := CheckRequestLine;
      requestMethod := Get;
      url, version := None, None;
      linger := false;
      contentLen := 0;
    }

    /** No mapping, an empty write buffer and nothing left to send. */
    method ResetResponse()
      modifies this`mapped, this`writeIdx, this`bytesLeft
      ensures !mapped && writeIdx == 0 && bytesLeft == 0
    {
      mapped := false;
      writeIdx := 0;
      bytesLeft := 0;
    }

    /** `bzero` over the read buffer. */
    method ZeroReadBuf()
      modifies this`readBuf
      ensures readBuf == Zeros()
    {
      readBuf := Zeros();
    }

    /**
     * `Init(sock_fd, addr)`: the socket is attached and registered with
     * epoll, the connection is counted, and the state is reset.
     */
    method InitConn(fd: int)
      requires Valid()
      modifies this, counter
      ensures Valid()
      ensures sockFd == fd && counter.users == old(counter.users) + 1
      ensures ReadSide() == Cleared(old(host))
      ensures !mapped && writeIdx == 0 && bytesLeft == 0
      ensures events == old(events) + [Added(fd)]
    {
      sockFd := fd;
      events := events + [Added(fd)];
      counter.users := counter.users + 1;
      Init();
    }

    /**
     * CloseConn: an open socket is removed from epoll and closed, and the
     * count goes down by one; on a closed one nothing happens, so a second
     * call changes nothing.
     */
    method CloseConn()
      requires Valid()
      modifies this`sockFd, this`events, counter`users
      ensures Valid()
      ensures sockFd == -1
      ensures old(sockFd) != -1 ==> counter.users == old(counter.users) - 1 && events == old(events) + [Removed(old(sockFd))]
      ensures old(sockFd) == -1 ==> counter.users == old(counter.users) && events == old(events)
      ensures ReadSide() == old(ReadSide()) && WriteSide() == old(WriteSide()) && SendSide() == old(SendSide())
      ensures mapped == old(mapped) && wire == old(wire)
    {
      if sockFd != -1 {
        events := events + [Removed(sockFd)];
        sockFd := -1;
        counter.users := counter.users - 1;
      }
    }

    /** Unmap: a mapping is released and forgotten; with none, nothing happens. */
    method Unmap()
      modifies this`mapped
      ensures !mapped
    {
      if mapped {
        mapped := false;
      }
    }

    /**
     * Read: the bytes that arrive are stored at `read_idx_`, which never
     * passes the end of the buffer; the result is true exactly when the
     * socket would block before closing or failing.
     */
    method Read(ins: seq<RecvOutcome>) returns (ok: bool)
      requires Valid() && ReadCall(readIdx, ins).ok.Some?
      modifies this`readIdx, this`readBuf
      ensures Valid()
      ensures var r := ReadCall(old(readIdx), ins);
        ok == r.ok.value && ReadSide() == Receive(old(ReadSide()), r.data)
    {
      if readIdx >= ReadBufSize {
        return false;
      }
      ghost var p0 := ReadSide();
      ghost var r := ReadCall(readIdx, ins);
      ghost var got: seq<byte> := [];
      var i := 0;
      var done := false;
      ok := false;
      while !done
        invariant i <= |ins| && p0.readIdx + |got| <= ReadBufSize
        invariant readBuf == Receive(p0, got).buf && readIdx == p0.readIdx + |got|
        invariant !done ==> r == Prepend(got, RecvRun(ReadBufSize - readIdx, ins, i))
        invariant done ==> r == ReadEnd(Some(ok), got)
        decreases |ins| - i, if done then 0 else 1
      {
        if i == |ins| {
          assert false;
        }
        ok, done, got := RecvOne(ins, i, p0, got, r);
        if !done {
          i := i + 1;
        }
      }
    }

    /** One `recv` of Read's loop: the answer decides whether the loop goes on and what is stored. */
    method RecvOne(ins: seq<RecvOutcome>, i: nat, ghost p0: Parser, ghost got: seq<byte>, ghost r: ReadEnd)
      returns (ok: bool, done: bool, ghost got': seq<byte>)
      requires i < |ins| && p0.Valid() && |p0.buf| == ReadBufSize && p0.readIdx + |got| <= ReadBufSize
      requires readBuf == Receive(p0, got).buf && readIdx == p0.readIdx + |got|
      requires r == Prepend(got, RecvRun(ReadBufSize - readIdx, ins, i))
      modifies this`readIdx, this`readBuf
      ensures p0.readIdx + |got'| <= ReadBufSize
      ensures readBuf == Receive(p0, got').buf && readIdx == p0.readIdx + |got'|
      ensures !done ==> r == Prepend(got', RecvRun(ReadBufSize - readIdx, ins, i + 1))
      ensures done ==> r == ReadEnd(Some(ok), got')
    {
      got' := got;
      var room := ReadBufSize - readIdx;
      if room == 0 || !ins[i].Data? || ins[i].bytes == [] {
        ok, done := room != 0 && ins[i].Again?, true;
        PrependNothing(got, Some(ok));
      } else {
        var bytes := ins[i].bytes;
        ghost var next := RecvRun(room - Min(|bytes|, room), ins, i + 1);
        var k := Take(bytes, p0, got);
        PrependData(got, bytes[..k], next);
        got' := got + bytes[..k];
        ok, done := false, false;
      }
    }

    /** One `recv` that returned bytes: as many as fit are stored after those of the earlier calls. */
    method Take(bytes: seq<byte>, ghost p0: Parser, ghost got: seq<byte>) returns (k: nat)
      requires p0.Valid() && |p0.buf| == ReadBufSize && p0.readIdx + |got| <= ReadBufSize
      requires readBuf == Receive(p0, got).buf && readIdx == Receive(p0, got).readIdx < ReadBufSize
      modifies this`readIdx, this`readBuf
      ensures k == Min(|bytes|, ReadBufSize - old(readIdx)) && readIdx == old(readIdx) + k
      ensures p0.readIdx + |got + bytes[..k]| <= ReadBufSize
      ensures readBuf == Receive(p0, got + bytes[..k]).buf && readIdx == Receive(p0, got + bytes[..k]).readIdx
    {
      k := Min(|bytes|, ReadBufSize - readIdx);
      ReceiveAppend(p0, got, bytes[..k]);
      readBuf := readBuf[..readIdx] + bytes[..k] + readBuf[readIdx + k..];
      readIdx := readIdx + k;
    }


    // -------------------------------------------------------------------
    // Parsing the request

    /**
     * ParseLine: the check cursor moves over the unread bytes until a
     * terminator decides the line; a CRLF becomes two NULs and the cursor
     * steps past it.
     */
    method ParseLine() returns (status: LineStatus)
      requires Valid()
      modifies this`checkIdx, this`readBuf
      ensures Valid()
      ensures var s := ScanLine(old(readBuf), old(checkIdx), readIdx);
        && status == s.status
        && ReadSide() == if s.status == LineOk then Terminated(old(ReadSide()), s.check)
                         else old(ReadSide()).(checkIdx := s.check)
    {
      SkipToStop();
      status := Classify();
    }

    /** ParseLine's loop: the check cursor moves over bytes that are neither CR nor LF. */
    method SkipToStop()
      requires Valid()
      modifies this`checkIdx
      ensures Valid() && old(checkIdx) <= checkIdx && ReadSide() == old(ReadSide()).(checkIdx := checkIdx)
      ensures checkIdx == readIdx || IsStop(readBuf[checkIdx])
      ensures ScanLine(readBuf, checkIdx, readIdx) == ScanLine(readBuf, old(checkIdx), readIdx)
    {
      while checkIdx < readIdx && !IsStop(readBuf[checkIdx])
        invariant old(checkIdx) <= checkIdx <= readIdx
        invariant ScanLine(readBuf, checkIdx, readIdx) == ScanLine(readBuf, old(checkIdx), readIdx)
        decreases readIdx - checkIdx
      {
        checkIdx := checkIdx + 1;
      }
    }

    /** ParseLine at a CR, an LF or the end of the data: the line is open, bad, or ends and is terminated. */
    method Classify() returns (status: LineStatus)
      requires Valid() && (checkIdx == readIdx || IsStop(readBuf[checkIdx]))
      modifies this`checkIdx, this`readBuf
      ensures Valid()
      ensures var s := ScanLine(old(readBuf), old(checkIdx), readIdx);
        && status == s.status
        && ReadSide() == if s.status == LineOk then Terminated(old(ReadSide()), s.check)
                         else old(ReadSide()).(checkIdx := s.check)
    {
      if checkIdx == readIdx {
        status := LineOpen;
      } else if readBuf[checkIdx] == CR {
        if checkIdx + 1 == readIdx {
          status := LineOpen;
        } else if readBuf[checkIdx + 1] == LF {
          EndLine(checkIdx + 2);
          status := LineOk;
        } else {
          status := LineBad;
        }
      } else if checkIdx > 1 && readBuf[checkIdx - 1] == CR {
        EndLine(checkIdx + 1);
        status := LineOk;
      } else {
        status := LineBad;
      }
    }

    /** A CRLF ending just before `k` becomes two NULs, and the check cursor moves to `k`. */
    method EndLine(k: nat)
      requires Valid() && checkIdx < k <= readIdx && 2 <= k
      modifies this`checkIdx, this`readBuf
      ensures Valid() && ReadSide() == Terminated(old(ReadSide()), k)
    {
      readBuf := readBuf[k - 2 := NUL][k - 1 := NUL];
      checkIdx := k;
    }

    /** One byte of the read buffer becomes NUL. */
    method PutNul(i: nat)
      requires i < |readBuf|
      modifies this`readBuf
      ensures readBuf == old(readBuf)[i := NUL]
    {
      readBuf := readBuf[i := NUL];
    }

    /**
     * ParseRequestLine on the line at `line_start_idx_`, as written: the
     * first space is taken without a null check (so the line must have
     * one) and becomes a NUL; the method must then be GET.
     */
    method ParseRequestLine(ghost b: seq<byte>) returns (code: HttpCode)
      requires |readBuf| == ReadBufSize && readBuf == b
      requires CStrEnd(b, lineStart) < |b| && StrChr(b, lineStart, SP).Some?
      modifies this`url, this`requestMethod, this`version, this`state, this`readBuf
      ensures var o := MethodAt(b, lineStart, StrChr(b, lineStart, SP).value);
        && code == o.code && readBuf == o.buf && url == o.url
        && requestMethod == (if o.isGet then Get else old(requestMethod))
        && version == (if o.isGet then o.version else old(version))
        && state == (if o.code == NoRequest then CheckHeader else old(state))
    {
      var sp := StrChr(readBuf, lineStart, SP).value;
      PutNul(sp);
      url := Some(sp + 1);
      code := ParseMethod(sp, b[sp := NUL]);
    }

    /** The method, cut off at `s`, must be GET (`strcasecmp`); then the target follows. */
    method ParseMethod(s: nat, ghost b: seq<byte>) returns (code: HttpCode)
      requires |readBuf| == ReadBufSize && readBuf == b && s + 1 < ReadBufSize
      modifies this`url, this`requestMethod, this`version, this`state, this`readBuf
      ensures var o := MethodCut(b, lineStart, s);
        (code, readBuf, url, requestMethod, version, state)
        == (o.code, o.buf, if o.isGet then o.url else old(url), if o.isGet then Get else old(requestMethod),
            if o.isGet then o.version else old(version), if o.code == NoRequest then CheckHeader else old(state))
    {
      if !CaseEq(CStr(readBuf, lineStart), TokenGet) {
        assert MethodCut(b, lineStart, s) == LineResult(BadRequest, b, Some(s + 1), false, None);
        return BadRequest;
      }
      assert MethodCut(b, lineStart, s) == AfterMethod(b, s + 1);
      requestMethod := Get;
      code := ParseTarget(s + 1, b);
    }

    /**
     * The rest of ParseRequestLine, after the method: the next space ends
     * the target and becomes a NUL, the version must be HTTP/1.1, and the
     * target, once an `http://` authority is skipped, must start with `/`.
     */
    method ParseTarget(u: nat, ghost b: seq<byte>) returns (code: HttpCode)
      requires |readBuf| == ReadBufSize && u < ReadBufSize && readBuf == b
      modifies this`url, this`version, this`state, this`readBuf
      ensures var o := AfterMethod(b, u);
        && code == o.code && readBuf == o.buf && url == o.url && version == o.version
        && state == (if code == NoRequest then CheckHeader else old(state))
    {
      var w := StrChr(readBuf, u, SP);
      if w.None? {
        version := None;
        url := Some(u);
        return BadRequest;
      }
      PutNul(w.value);
      code := ParseVersion(u, w.value, b[w.value := NUL]);
    }

    /** The rest of ParseRequestLine once the space after the target, at `w`, has become a NUL. */
    method ParseVersion(u: nat, w: nat, ghost b: seq<byte>) returns (code: HttpCode)
      requires |readBuf| == ReadBufSize && u < ReadBufSize && w < ReadBufSize && readBuf == b
      modifies this`url, this`version, this`state
      ensures var o := AfterTarget(b, u, w);
        && code == o.code && url == o.url && version == o.version
        && state == (if code == NoRequest then CheckHeader else old(state))
    {
      version := Some(w + 1);
      url := Some(u);
      if !CaseEq(CStr(readBuf, w + 1), TokenHttp11) {
        return BadRequest;
      }
      url := SkipAuthority(readBuf, u);
      if url.None? || readBuf[url.value] != SLASH {
        return BadRequest;
      }
      state := CheckHeader;
      return NoRequest;
    }

    /**
     * ParseHeader on the line at `line_start_idx_`: the empty line, a line
     * without a colon, and a field whose key names `host_`, `linger_` or
     * `content_len_`.
     */
    method ParseHeader() returns (code: HttpCode)
      requires Valid() && state == CheckHeader && lineStart < ReadBufSize
      modifies this`state, this`host, this`linger, this`contentLen, this`readBuf
      ensures Valid()
      ensures Step(code, ReadSide()) == HeaderStep(old(ReadSide()))
    {
      if readBuf[lineStart] == NUL {
        if contentLen != 0 {
          state := CheckContent;
          code := NoRequest;
        } else {
          code := GetRequest;
        }
      } else {
        code := HeaderField();
      }
    }

    /** ParseHeader on a line that is not empty: without a colon it is malformed, otherwise a field. */
    method HeaderField() returns (code: HttpCode)
      requires Valid() && state == CheckHeader && lineStart < ReadBufSize && readBuf[lineStart] != NUL
      modifies this`host, this`linger, this`contentLen, this`readBuf
      ensures Valid()
      ensures Step(code, ReadSide()) == HeaderStep(old(ReadSide()))
    {
      var colon := StrChr(readBuf, lineStart, COLON);
      if colon.None? {
        code := BadRequest;
      } else {
        ghost var p := ReadSide();
        ghost var b := p.buf[colon.value := NUL];
        FieldLine(p, colon.value);
        code := ParseField(colon.value);
        FieldStepIs(p, Step(code, ReadSide()), b, CStr(b, lineStart), CStr(b, colon.value + 2), colon.value + 2);
      }
    }

    /** The part of ParseHeader for a line whose first colon is at `c`: key and value are read and applied. */
    method ParseField(c: nat) returns (code: HttpCode)
      requires Valid() && state == CheckHeader && lineStart < ReadBufSize && readBuf[lineStart] != NUL
      requires StrChr(readBuf, lineStart, COLON) == Some(c)
      modifies this`host, this`linger, this`contentLen, this`readBuf
      ensures var b := old(readBuf)[c := NUL];
        FieldApplied(old(ReadSide()), Step(code, ReadSide()), b, CStr(b, lineStart), CStr(b, c + 2), c + 2)
      ensures ReadSide() == old(ReadSide()).(buf := readBuf, host := host, linger := linger, contentLen := contentLen)
    {
      PutNul(c);
      code := ApplyField(c + 2);
    }

    /** ParseHeader once the colon is a NUL: the key before it names the member the value at `value` sets. */
    method ApplyField(value: nat) returns (code: HttpCode)
      requires Valid() && state == CheckHeader && lineStart < ReadBufSize
      modifies this`host, this`linger, this`contentLen
      ensures FieldApplied(old(ReadSide()), Step(code, ReadSide()), readBuf, CStr(readBuf, lineStart), CStr(readBuf, value), value)
      ensures ReadSide() == old(ReadSide()).(host := host, linger := linger, contentLen := contentLen)
    {
      var key := CStr(readBuf, lineStart);
      if CaseEq(key, KeyHost) {
        host := Some(value);
      } else if CaseEq(key, KeyConnection) {
        if CaseEq(CStr(readBuf, value), TokenKeepAlive) {
          linger := true;
        }
      } else if CaseEq(key, KeyContentLength) {
        contentLen := Atoi(CStr(readBuf, value));
      }
      code := NoRequest;
    }

    /**
     * ParseContent as written: the body counts as complete against the
     * check cursor, and its terminator is written at `line_start_idx_ +
     * content_len_`, which must fall inside the buffer.
     */
    method ParseContent() returns (code: HttpCode)
      requires Valid() && ContentStepAsWritten(ReadSide()).Some?
      modifies this`readBuf
      ensures Valid()
      ensures ContentStepAsWritten(old(ReadSide())) == Some(Step(code, ReadSide()))
    {
      if readIdx >= contentLen + checkIdx {
        readBuf := readBuf[lineStart + contentLen := NUL];
        return GetRequest;
      }
      return NoRequest;
    }

    /**
     * ProcessRead, as written: lines are taken from the buffer and fed to
     * the parser of the current state until one answers, a line is
     * incomplete or malformed, or the body is complete; a complete request
     * goes to DoRequest. The code as written must not write through a null
     * pointer or outside the buffer on this input.
     */
    method ProcessRead(fs: FileSystem, ghost r: Step) returns (code: HttpCode)
      requires Valid() && ParseLoopAsWritten(ReadSide(), LineOk) == Some(r)
      modifies this`checkIdx, this`lineStart, this`state, this`requestMethod, this`url, this`version, this`host,
        this`linger, this`contentLen, this`readBuf, this`targetPath, this`fileStat, this`mapped
      ensures Valid() && ReadSide() == r.p && code == ReadCode(r, fs)
      ensures (targetPath, fileStat, mapped) == Looked(r, fs, old(targetPath), old(fileStat), old(mapped))
    {
      code := ParseRequest();
      if code == GetRequest {
        code := DoRequest(fs);
      }
    }

    /** ProcessRead's loop: passes until one settles the code for this read. */
    method ParseRequest() returns (code: HttpCode)
      requires Valid() && ParseLoopAsWritten(ReadSide(), LineOk).Some?
      modifies this`checkIdx, this`lineStart, this`state, this`requestMethod, this`url, this`version, this`host,
        this`linger, this`contentLen, this`readBuf
      ensures Valid()
      ensures ParseLoopAsWritten(old(ReadSide()), LineOk) == Some(Step(code, ReadSide()))
    {
      ghost var r := ParseLoopAsWritten(ReadSide(), LineOk);
      var ls := LineOk;
      var done := false;
      code := NoRequest;
      while !done
        invariant Valid() && readIdx == old(readIdx)
        invariant !done ==> ls != LineBad && ParseLoopAsWritten(ReadSide(), ls) == r
        invariant done ==> r == Some(Step(code, ReadSide()))
        decreases !done, readIdx - checkIdx, if state == CheckContent && ls == LineOk then 1 else 0
      {
        LoopUnfold(ReadSide(), ls);
        done, code, ls := LoopPass(ls);
      }
    }

    /** One pass of ProcessRead's loop. */
    method LoopPass(ls: LineStatus) returns (done: bool, code: HttpCode, ls': LineStatus)
      requires Valid() && ls != LineBad && PassAsWritten(ReadSide(), ls) != Stop(None)
      modifies this`checkIdx, this`lineStart, this`state, this`requestMethod, this`url, this`version, this`host,
        this`linger, this`contentLen, this`readBuf
      ensures Valid()
      ensures PassAsWritten(old(ReadSide()), ls) == if done then Stop(Some(Step(code, ReadSide()))) else Go(ReadSide(), ls')
    {
      if state == CheckContent && ls == LineOk {
        done, code, ls' := BodyFirst();
      } else {
        done, code, ls' := NextLine(ls);
      }
    }

    /** A pass of ProcessRead's loop in the body state with LINE_OK: the body is checked without tokenizing. */
    method BodyFirst() returns (done: bool, code: HttpCode, ls: LineStatus)
      requires Valid() && state == CheckContent && PassAsWritten(ReadSide(), LineOk) != Stop(None)
      modifies this`lineStart, this`readBuf
      ensures Valid()
      ensures PassAsWritten(old(ReadSide()), LineOk) == if done then Stop(Some(Step(code, ReadSide()))) else Go(ReadSide(), ls)
    {
      code := ParseContent();
      done := code != NoRequest;
      ls := LineOpen;
      if !done {
        lineStart := checkIdx;
      }
    }

    /** A pass of ProcessRead's loop that tokenizes: the condition's ParseLine, then the switch. */
    method NextLine(ls: LineStatus) returns (done: bool, code: HttpCode, ls': LineStatus)
      requires Valid() && ls != LineBad && !(state == CheckContent && ls == LineOk)
      requires PassAsWritten(ReadSide(), ls) != Stop(None)
      modifies this`checkIdx, this`lineStart, this`state, this`requestMethod, this`url, this`version, this`host,
        this`linger, this`contentLen, this`readBuf
      ensures Valid()
      ensures PassAsWritten(old(ReadSide()), ls) == if done then Stop(Some(Step(code, ReadSide()))) else Go(ReadSide(), ls')
    {
      ls' := ParseLine();
      if ls' != LineOk {
        done := true;
        code := if ls' == LineBad then BadRequest else NoRequest;
      } else {
        CStrEndBound(readBuf, lineStart, checkIdx - 1);
        done, code, ls' := LineSwitch();
      }
    }

    /** The switch of ProcessRead's loop on a line ParseLine has just terminated. */
    method LineSwitch() returns (done: bool, code: HttpCode, ls: LineStatus)
      requires Valid() && CStrEnd(readBuf, lineStart) < ReadBufSize && LinePass(ReadSide()) != Stop(None)
      modifies this`lineStart, this`state, this`requestMethod, this`url, this`version, this`host,
        this`linger, this`contentLen, this`readBuf
      ensures Valid()
      ensures LinePass(old(ReadSide())) == if done then Stop(Some(Step(code, ReadSide()))) else Go(ReadSide(), ls)
    {
      var st := state;
      code := Dispatch();
      done := code != NoRequest;
      ls := if st == CheckContent then LineOpen else LineOk;
      if !done {
        lineStart := checkIdx;
      }
    }

    /** The switch of ProcessRead's loop on a tokenized line: the parser of the current state runs. */
    method Dispatch() returns (code: HttpCode)
      requires Valid() && CStrEnd(readBuf, lineStart) < ReadBufSize && LineAsWritten(ReadSide()).Some?
      modifies this`state, this`requestMethod, this`url, this`version, this`host, this`linger, this`contentLen, this`readBuf
      ensures Valid() && LineAsWritten(old(ReadSide())) == Some(Step(code, ReadSide()))
    {
      ghost var p := ReadSide();
      match state
      case CheckRequestLine =>
        ghost var o := MethodAt(readBuf, lineStart, StrChr(readBuf, lineStart, SP).value);
        code := ParseRequestLine(readBuf);
        RequestLineApplied(p, ReadSide(), code, o);
      case CheckHeader =>
        code := ParseHeader();
      case CheckContent =>
        code := ParseContent();
    }

    /**
     * DoRequest: the path is built from `url_`, then `stat`, the
     * permission and kind checks and `open` decide the answer; the file is
     * mapped only when all of them pass, and `file_stat_` holds whatever
     * `stat` answered.
     */
    method DoRequest(fs: FileSystem) returns (code: HttpCode)
      requires url.Some?
      modifies this`targetPath, this`fileStat, this`mapped
      ensures var res := Resolve(TargetPath(CStr(readBuf, url.value)), fs);
        && targetPath == TargetPath(CStr(readBuf, url.value))
        && code == res.code
        && fileStat == (if res.stat.Some? then res.stat.value else old(fileStat))
        && mapped == (old(mapped) || res.mapped)
    {
      targetPath := TargetPath(CStr(readBuf, url.value));
      if targetPath !in fs.stats {
        return NoResource;
      }
      fileStat := fs.stats[targetPath];
      if !fileStat.otherRead {
        return ForbiddenRequest;
      }
      if fileStat.isDir {
        return BadRequest;
      }
      if targetPath !in fs.openable {
        return NoResource;
      }
      mapped := true;
      return FileRequest;
    }

    // -------------------------------------------------------------------
    // Building the response

    /**
     * AddResponse with the rendered text: `vsnprintf` writes what fits at
     * `write_idx_`; the index moves past the text only when all of it fits
     * before the buffer's last byte.
     */
    method AddResponse(text: seq<byte>) returns (ok: bool)
      requires Valid()
      modifies this`writeBuf, this`writeIdx
      ensures Valid()
      ensures Emitted(ok, WriteSide()) == Emit(old(WriteSide()), text)
      ensures ok <==> old(writeIdx) + |text| <= WriteBufSize - 2
      ensures ok ==> writeBuf[..writeIdx] == old(writeBuf[..writeIdx]) + text
      ensures !ok ==> writeIdx == old(writeIdx) && writeBuf[..writeIdx] == old(writeBuf[..writeIdx])
    {
      EmitSpec(WriteSide(), text);
      if writeIdx > WriteBufSize {
        return false;
      }
      var size := WriteBufSize - writeIdx - 1;
      writeBuf := Vsnprintf(writeBuf, writeIdx, size, text);
      if |text| >= size {
        return false;
      }
      writeIdx := writeIdx + |text|;
      return true;
    }

    /** "HTTP/1.1 <status> <title>\r\n" */
    method AddStatusLine(status: int, title: seq<byte>) returns (ok: bool)
      requires Valid()
      modifies this`writeBuf, this`writeIdx
      ensures Valid() && Emitted(ok, WriteSide()) == Emit(old(WriteSide()), StatusLine(status, title))
    {
      ok := AddResponse(StatusLine(status, title));
    }

    /** AddHeaders: the three header lines and the blank line, up to the first that does not fit. */
    method AddHeaders(n: int) returns (ok: bool)
      requires Valid()
      modifies this`writeBuf, this`writeIdx
      ensures Valid() && WriteSide() == Headers(old(WriteSide()), n, linger).out
      ensures !Headers(old(WriteSide()), n, linger).ok ==> !ok
    {
      ok := AddContentLength(n);
      if !ok {
        return false;
      }
      ok := AddContentType();
      if !ok {
        return false;
      }
      ok := AddLinger();
      if !ok {
        return false;
      }
      ok := AddBlankLine();
      if !ok {
        return false;
      }
      // The function ends without a return statement: the caller gets an unspecified value.
      ok := *;
    }

    method AddContentLength(n: int) returns (ok: bool)
      requires Valid()
      modifies this`writeBuf, this`writeIdx
      ensures Valid() && Emitted(ok, WriteSide()) == Emit(old(WriteSide()), ContentLengthLine(n))
    {
      ok := AddResponse(ContentLengthLine(n));
    }

    method AddContentType() returns (ok: bool)
      requires Valid()
      modifies this`writeBuf, this`writeIdx
      ensures Valid() && Emitted(ok, WriteSide()) == Emit(old(WriteSide()), ContentTypeLine)
    {
      ok := AddResponse(ContentTypeLine);
    }

    /** "Connection: keep-alive" when the request asked to linger, "Connection: close" otherwise. */
    method AddLinger() returns (ok: bool)
      requires Valid()
      modifies this`writeBuf, this`writeIdx
      ensures Valid() && Emitted(ok, WriteSide()) == Emit(old(WriteSide()), ConnectionLine(linger))
    {
      ok := AddResponse(ConnectionLine(linger));
    }

    /** The blank line; the function ends without a return statement, so its result is unspecified. */
    method AddBlankLine() returns (ok: bool)
      requires Valid()
      modifies this`writeBuf, this`writeIdx
      ensures Valid() && WriteSide() == Emit(old(WriteSide()), CRLF).out
    {
      var _ := AddResponse(CRLF);
      ok := *;
    }

    /** The page text; the function ends without a return statement, so its result is unspecified. */
    method AddContent(content: seq<byte>) returns (ok: bool)
      requires Valid()
      modifies this`writeBuf, this`writeIdx
      ensures Valid() && WriteSide() == Emit(old(WriteSide()), content).out
    {
      var _ := AddResponse(content);
      ok := *;
    }

    /**
     * ProcessWrite: an error code appends its status line, headers and
     * page, and leaves the iovec alone; a file request appends status line
     * and headers and, when nothing is left to send, points the iovec at
     * the header and the mapped file; any other code returns false.
     */
    method ProcessWrite(code: HttpCode) returns (ok: bool)
      requires Valid()
      modifies this`writeBuf, this`writeIdx, this`iv0, this`iv1, this`ivCount, this`bytesLeft
      ensures Valid()
      ensures IsError(code) ==> WriteSide() == ErrorOut(old(WriteSide()), code, linger) && SendSide() == old(SendSide())
      ensures code == FileRequest ==>
        && ok && WriteSide() == FileHeadOut(old(WriteSide()), fileStat.size, linger)
        && SendSide() == if old(bytesLeft) == 0 then Prepared(writeIdx, fileStat.size) else old(SendSide())
      ensures !IsError(code) && code != FileRequest ==>
        !ok && WriteSide() == old(WriteSide()) && SendSide() == old(SendSide())
    {
      if IsError(code) {
        ok := ErrorPageOut(PageOf(code));
      } else if code == FileRequest {
        FileHead();
        ok := true;
      } else {
        ok := false;
      }
    }

    /**
     * The file case of ProcessWrite: status line and headers with the
     * file's size as an `int`, and the iovec over the header and the file
     * when nothing is left to send.
     */
    method FileHead()
      requires Valid()
      modifies this`writeBuf, this`writeIdx, this`iv0, this`iv1, this`ivCount, this`bytesLeft
      ensures Valid() && WriteSide() == FileHeadOut(old(WriteSide()), fileStat.size, linger)
      ensures SendSide() == if old(bytesLeft) == 0 then Prepared(writeIdx, fileStat.size) else old(SendSide())
    {
      FileStatusAndHeaders();
      PointIovec();
    }

    /** The status line and headers of a file response. */
    method FileStatusAndHeaders()
      requires Valid()
      modifies this`writeBuf, this`writeIdx
      ensures Valid() && WriteSide() == FileHeadOut(old(WriteSide()), fileStat.size, linger)
    {
      var _ := AddStatusLine(200, OkTitle200);
      var _ := AddHeaders(ToCInt(fileStat.size));
    }

    /**
     * With nothing left to send, segment 0 goes over the `write_idx_`
     * bytes of the header and segment 1 over the whole file; otherwise
     * the iovec stays as it is.
     */
    method PointIovec()
      modifies this`iv0, this`iv1, this`ivCount, this`bytesLeft
      ensures SendSide() == if old(bytesLeft) == 0 then Prepared(writeIdx, fileStat.size) else old(SendSide())
    {
      if bytesLeft != 0 {
        return;
      }
      iv0 := Iovec(0, writeIdx);
      iv1 := Iovec(0, fileStat.size);
      ivCount := 2;
      bytesLeft := iv0.len + iv1.len;
    }

    /**
     * One error case of ProcessWrite: status line, headers giving the
     * page's length, then the page; the case ends with `break` and the
     * function without a return statement, so the result is unspecified.
     */
    method ErrorPageOut(pg: ErrorPage) returns (ok: bool)
      requires Valid()
      modifies this`writeBuf, this`writeIdx
      ensures Valid() && WriteSide() == PageOut(old(WriteSide()), pg, linger)
    {
      var _ := AddStatusLine(pg.status, pg.title);
      var _ := AddHeaders(|pg.info|);
      ok := AddContent(pg.info);
      if !ok {
        return false;
      }
      ok := *;
    }

    // -------------------------------------------------------------------
    // Sending the response

    /**
     * Write, as written: `writev` is called on the iovec until
     * `bytes_left_` reaches 0, each count sent lowering it and the next
     * call going out on the iovec unchanged. Would-block adjusts the iovec
     * and re-arms the socket for output; another error releases the
     * mapping and fails. When all is sent the mapping is released and a
     * lingering connection is reset and re-armed for input; one that does
     * not linger fails, so that it is closed.
     */
    method Write(outs: seq<SendOutcome>) returns (ok: bool)
      requires Valid() && WriteAsWritten(SendSide(), writeIdx, fileStat.size, outs).end.Some?
      modifies this`readIdx, this`checkIdx, this`lineStart, this`state, this`requestMethod, this`url,
        this`version, this`linger, this`contentLen, this`mapped, this`writeIdx, this`bytesLeft, this`readBuf,
        this`iv0, this`iv1, this`events, this`wire
      ensures Valid()
      ensures var r := WriteAsWritten(old(SendSide()), old(writeIdx), fileStat.size, outs);
        && wire == old(wire) + r.wire
        && SendSide() == r.v
        && (r.end == Some(Rearm) ==>
              (ok, mapped, events, ReadSide(), WriteSide()) ==
              (true, old(mapped), old(events) + [ArmedOut(sockFd)], old(ReadSide()), old(WriteSide())))
        && (r.end == Some(HardError) ==>
              (ok, mapped, events, ReadSide(), WriteSide()) ==
              (false, false, old(events), old(ReadSide()), old(WriteSide())))
        && (r.end == Some(AllSent) && old(linger) ==>
              (ok, mapped, events, ReadSide(), writeIdx) ==
              (true, false, old(events) + [ArmedIn(sockFd)], Cleared(old(host)), 0))
        && (r.end == Some(AllSent) && !old(linger) ==>
              (ok, mapped, events, ReadSide(), WriteSide()) ==
              (false, false, old(events), old(ReadSide()), old(WriteSide())))
    {
      var w := SendAll(outs);
      ok := Finish(w);
    }

    /**
     * Write after its loop ended with the call `w`: at would-block the
     * iovec is moved past what was sent and the socket re-armed for
     * output; otherwise the mapping is released and the result is as
     * Release says.
     */
    method Finish(w: Writev) returns (ok: bool)
      requires Valid() && (w.Wrote? ==> bytesLeft == 0)
      modifies this`readIdx, this`checkIdx, this`lineStart, this`state, this`requestMethod, this`url,
        this`version, this`linger, this`contentLen, this`mapped, this`writeIdx, this`bytesLeft, this`readBuf,
        this`iv0, this`iv1, this`events
      ensures Valid()
      ensures SendSide() == if w == Blocked then Adjust(old(SendSide()), old(writeIdx), fileStat.size) else old(SendSide())
      ensures EndOf(w) == Rearm ==>
        (ok, mapped, events, ReadSide(), WriteSide()) ==
        (true, old(mapped), old(events) + [ArmedOut(sockFd)], old(ReadSide()), old(WriteSide()))
      ensures EndOf(w) == HardError ==>
        (ok, mapped, events, ReadSide(), WriteSide()) ==
        (false, false, old(events), old(ReadSide()), old(WriteSide()))
      ensures EndOf(w) == AllSent && old(linger) ==>
        (ok, mapped, events, ReadSide(), writeIdx) ==
        (true, false, old(events) + [ArmedIn(sockFd)], Cleared(old(host)), 0)
      ensures EndOf(w) == AllSent && !old(linger) ==>
        (ok, mapped, events, ReadSide(), WriteSide()) ==
        (false, false, old(events), old(ReadSide()), old(WriteSide()))
    {
      if w == Blocked {
        AdjustIovec();
        events := events + [ArmedOut(sockFd)];
        return true;
      }
      ok := Release(w == Error);
    }

    /**
     * The end of Write after an error or with everything sent: the
     * mapping is released; after an error, or when the connection does not
     * linger, the result is false; a lingering connection is reset and
     * re-armed for input.
     */
    method Release(failed: bool) returns (ok: bool)
      requires Valid()
      modifies this`readIdx, this`checkIdx, this`lineStart, this`state, this`requestMethod, this`url,
        this`version, this`linger, this`contentLen, this`mapped, this`writeIdx, this`bytesLeft, this`readBuf,
        this`events
      ensures Valid() && !mapped && (ok <==> !failed && old(linger))
      ensures ok ==>
        && ReadSide() == Cleared(old(host)) && writeIdx == 0 && SendSide() == old(SendSide()).(bytesLeft := 0)
        && events == old(events) + [ArmedIn(sockFd)]
      ensures !ok ==>
        && ReadSide() == old(ReadSide()) && WriteSide() == old(WriteSide()) && SendSide() == old(SendSide())
        && events == old(events)
    {
      Unmap();
      if failed {
        return false;
      }
      if linger {
        Init();
        events := events + [ArmedIn(sockFd)];
        return true;
      }
      return false;
    }

    /**
     * Write's loop up to the call that ends it: `writev` answers in turn
     * from `outs`, and every count lowers `bytes_left_`. The loop ends at
     * would-block, at an error, or with `bytes_left_` at 0, which it
     * returns as the count of that last call.
     */
    method SendAll(outs: seq<SendOutcome>) returns (w: Writev)
      requires WriteAsWritten(SendSide(), writeIdx, fileStat.size, outs).end.Some?
      modifies this`bytesLeft, this`wire
      ensures var r := WriteAsWritten(old(SendSide()), writeIdx, fileStat.size, outs);
        && wire == old(wire) + r.wire
        && r.end == Some(EndOf(w))
        && r.v == (if w == Blocked then Adjust(SendSide(), writeIdx, fileStat.size) else SendSide())
        && SendSide() == old(SendSide()).(bytesLeft := bytesLeft)
        && (w.Wrote? ==> bytesLeft == 0)
    {
      ghost var r := WriteAsWritten(SendSide(), writeIdx, fileStat.size, outs);
      ghost var got: seq<int> := [];
      assert outs[0..] == outs;
      var i := 0;
      var done := false;
      w := Blocked;
      while !done
        invariant i < |outs| && wire == old(wire) + got
        invariant SendSide() == old(SendSide()).(bytesLeft := bytesLeft)
        invariant !done ==> var rest := WriteAsWritten(SendSide(), writeIdx, fileStat.size, outs[i..]);
          r == Progress(rest.end, rest.v, got + rest.wire)
        invariant done ==> w.Wrote? ==> bytesLeft == 0
        invariant done ==>
          r == Progress(Some(EndOf(w)), if w == Blocked then Adjust(SendSide(), writeIdx, fileStat.size) else SendSide(), got)
        decreases |outs| - i, if done then 0 else 1
      {
        w, done, got := SendOnce(outs, i, old(wire), got, r);
        if !done {
          i := i + 1;
          if i == |outs| {
            assert false;
          }
        }
      }
    }

    /** One `writev` of Write's loop: the answer ends the loop, or its count lowers `bytes_left_`. */
    method SendOnce(outs: seq<SendOutcome>, i: nat, ghost base: seq<int>, ghost got: seq<int>, ghost r: Progress)
      returns (w: Writev, done: bool, ghost got': seq<int>)
      requires i < |outs| && wire == base + got
      requires var rest := WriteAsWritten(SendSide(), writeIdx, fileStat.size, outs[i..]);
        r == Progress(rest.end, rest.v, got + rest.wire)
      modifies this`bytesLeft, this`wire
      ensures wire == base + got' && SendSide() == old(SendSide()).(bytesLeft := bytesLeft)
      ensures !done ==> var rest := WriteAsWritten(SendSide(), writeIdx, fileStat.size, outs[i + 1..]);
        r == Progress(rest.end, rest.v, got' + rest.wire)
      ensures done ==> w.Wrote? ==> bytesLeft == 0
      ensures done ==>
        r == Progress(Some(EndOf(w)), if w == Blocked then Adjust(SendSide(), writeIdx, fileStat.size) else SendSide(), got')
    {
      got' := got;
      w := WritevCall(SendSide(), writeIdx, outs[i]);
      if !w.Wrote? {
        assert got + [] == got;
        return w, true, got';
      }
      ghost var v := SendSide();
      ghost var sent := Described(v, writeIdx)[..w.k];
      SendStep(v, writeIdx, fileStat.size, outs, i, w.k, got, r);
      wire := wire + sent;
      got' := got + sent;
      bytesLeft := bytesLeft - w.k;
      assert SendSide() == v.(bytesLeft := v.bytesLeft - w.k);
      done := bytesLeft == 0;
    }

    /** The would-block adjustment of the iovec, from `bytes_left_`, `write_idx_` and the file's size. */
    method AdjustIovec()
      modifies this`iv0, this`iv1
      ensures SendSide() == Adjust(old(SendSide()), writeIdx, fileStat.size)
    {
      var total := writeIdx + fileStat.size - bytesLeft;
      if total < writeIdx {
        iv0 := Iovec(iv0.base + total, iv0.len - total);
      } else {
        iv0 := iv0.(len := 0);
        iv1 := Iovec(total - writeIdx, fileStat.size - (total - writeIdx));
      }
    }

    // -------------------------------------------------------------------
    // The worker's entry point

    /**
     * Process: a request still incomplete re-arms the socket for input;
     * otherwise the response is prepared, the connection is closed when
     * ProcessWrite fails, and the socket is re-armed for output (as
     * written, after a close this asks epoll about descriptor -1).
     */
    method Process(fs: FileSystem, ghost r: Step) returns (ghost code: HttpCode)
      requires Valid() && ParseLoopAsWritten(ReadSide(), LineOk) == Some(r)
      modifies this`checkIdx, this`lineStart, this`state, this`requestMethod, this`url, this`version, this`host,
        this`linger, this`contentLen, this`readBuf, this`targetPath, this`fileStat, this`mapped,
        this`writeBuf, this`writeIdx, this`iv0, this`iv1, this`ivCount, this`bytesLeft, this`sockFd, this`events,
        counter`users
      ensures Valid() && ReadSide() == r.p && code == ReadCode(r, fs)
      ensures code == NoRequest ==>
        (sockFd, events, WriteSide(), SendSide()) ==
        (old(sockFd), old(events) + [ArmedIn(old(sockFd))], old(WriteSide()), old(SendSide()))
      ensures code != NoRequest ==> Responded(code, old(WriteSide()), old(SendSide()), old(sockFd), old(events))
    {
      var c := ProcessRead(fs, r);
      React(c);
      code := c;
    }

    /** Process once ProcessRead has answered: re-arm for input, or respond. */
    method React(code: HttpCode)
      requires Valid()
      modifies this`writeBuf, this`writeIdx, this`iv0, this`iv1, this`ivCount, this`bytesLeft, this`sockFd, this`events,
        counter`users
      ensures Valid() && ReadSide() == old(ReadSide())
      ensures code == NoRequest ==>
        (sockFd, events, WriteSide(), SendSide()) ==
        (old(sockFd), old(events) + [ArmedIn(old(sockFd))], old(WriteSide()), old(SendSide()))
      ensures code != NoRequest ==> Responded(code, old(WriteSide()), old(SendSide()), old(sockFd), old(events))
    {
      if code == NoRequest {
        events := events + [ArmedIn(sockFd)];
        return;
      }
      Respond(code);
    }

    /** Process after a complete request: ProcessWrite, a close when it fails, and the output re-arm. */
    method Respond(code: HttpCode)
      requires Valid()
      modifies this`writeBuf, this`writeIdx, this`iv0, this`iv1, this`ivCount, this`bytesLeft, this`sockFd, this`events,
        counter`users
      ensures Valid() && Responded(code, old(WriteSide()), old(SendSide()), old(sockFd), old(events))
    {
      var ok := ProcessWrite(code);
      ArmOutput(ok);
    }

    /** The tail of Process: a close when ProcessWrite failed, then the output re-arm. */
    method ArmOutput(ok: bool)
      requires Valid()
      modifies this`sockFd, this`events, counter`users
      ensures Valid() && WriteSide() == old(WriteSide()) && SendSide() == old(SendSide())
      ensures ok ==> sockFd == old(sockFd) && events == old(events) + [ArmedOut(sockFd)]
      ensures !ok ==> sockFd == -1 && events == ClosedEvents(old(sockFd), old(events)) + [ArmedOut(-1)]
    {
      if !ok {
        CloseConn();
      }
      events := events + [ArmedOut(sockFd)];
    }

    /**
     * The state after the response to `code` is prepared, from the write
     * buffer `o`, the iovec `v`, the descriptor `fd0` and the epoll
     * requests `ev0` before: an error page appended, with the socket
     * re-armed for output (and closed first if ProcessWrite's unspecified
     * result read as false); a file's status line and headers appended
     * and the iovec prepared, with the socket re-armed for output; for any
     * other code, nothing appended and the connection closed.
     */
    ghost predicate Responded(code: HttpCode, o: Out, v: Vec, fd0: int, ev0: seq<Event>)
      requires o.Valid()
      reads this
    {
      && (IsError(code) ==>
            (WriteSide(), SendSide()) == (ErrorOut(o, code, linger), v) && ArmedAfter(fd0, ev0))
      && (code == FileRequest ==>
            (sockFd, events, WriteSide(), SendSide()) ==
            (fd0, ev0 + [ArmedOut(fd0)], FileHeadOut(o, fileStat.size, linger),
             if v.bytesLeft == 0 then Prepared(writeIdx, fileStat.size) else v))
      && (!IsError(code) && code != FileRequest ==>
            (sockFd, events, WriteSide(), SendSide()) == (-1, ClosedEvents(fd0, ev0) + [ArmedOut(-1)], o, v))
    }

    /**
     * After an error response the socket is re-armed for output, or, when
     * ProcessWrite's unspecified result read as false, first closed.
     */
    ghost predicate ArmedAfter(fd0: int, ev0: seq<Event>)
      reads this
    {
      || (sockFd == fd0 && events == ev0 + [ArmedOut(fd0)])
      || (sockFd == -1 && events == ClosedEvents(fd0, ev0) + [ArmedOut(-1)])
    }
  }
}
