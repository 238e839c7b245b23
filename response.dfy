/**
 * The response writer: AddResponse appends formatted text to the 1024-byte
 * write buffer through `vsnprintf`, and the Add* helpers and ProcessWrite
 * append the status line, the headers and the error page in order. A
 * format and its arguments are modelled by the text they render.
 */
module Response {
  import opened Bytes
  import opened HttpDefs
  import opened HeaderLine

  const CRLF: seq<byte> := [CR, LF]
  /** "HTTP/1.1 " */
  const StatusPrefix: seq<byte> := [72, 84, 84, 80, 47, 49, 46, 49, 32]
  /** "Content-Type: text/html\r\n" */
  const ContentTypeLine: seq<byte> := Lit("Content-Type: text/html\r\n")
  /** "close" */
  const TokenClose: seq<byte> := [99, 108, 111, 115, 101]

  lemma TextsSpelled()
    ensures StatusPrefix == Lit("HTTP/1.1 ") && TokenClose == Lit("close")
  {
  }

  /** "HTTP/1.1 <status> <title>\r\n" */
  function StatusLine(status: int, title: seq<byte>): seq<byte> {
    StatusPrefix + Decimal(status) + [SP] + title + CRLF
  }

  /** "Content-Length: <n>\r\n" */
  function ContentLengthLine(n: int): seq<byte> {
    KeyContentLength + [COLON, SP] + Decimal(n) + CRLF
  }

  /** "Connection: keep-alive\r\n" or "Connection: close\r\n" */
  function ConnectionLine(linger: bool): seq<byte> {
    KeyConnection + [COLON, SP] + (if linger then TokenKeepAlive else TokenClose) + CRLF
  }

  /** What AddHeaders appends when every line fits, blank line included. */
  function HeaderBlock(n: int, linger: bool): seq<byte> {
    ContentLengthLine(n) + ContentTypeLine + ConnectionLine(linger) + CRLF
  }

  /** `off_t` converted to `int`: the low 32 bits, read as two's complement. */
  function ToCInt(n: int): (r: int)
    ensures -0x8000_0000 <= r < 0x8000_0000
  {
    (n + 0x8000_0000) % 0x1_0000_0000 - 0x8000_0000
  }

  /** The status, title and page of an error response. */
  datatype ErrorPage = ErrorPage(status: int, title: seq<byte>, info: seq<byte>)

  predicate IsError(code: HttpCode) {
    code == InternalError || code == BadRequest || code == NoResource || code == ForbiddenRequest
  }

  function PageOf(code: HttpCode): ErrorPage
    requires IsError(code)
  {
    match code
    case InternalError => ErrorPage(500, ErrorTitle500, ErrorInfo500)
    case BadRequest => ErrorPage(400, ErrorTitle400, ErrorInfo400)
    case NoResource => ErrorPage(404, ErrorTitle404, ErrorInfo404)
    case ForbiddenRequest => ErrorPage(403, ErrorTitle403, ErrorInfo403)
  }

  /** The complete error response: status line, headers giving the page's length, the page. */
  function ErrorResponse(code: HttpCode, linger: bool): seq<byte>
    requires IsError(code)
  {
    PageResponse(PageOf(code), linger)
  }

  function PageResponse(pg: ErrorPage, linger: bool): seq<byte> {
    StatusLine(pg.status, pg.title) + HeaderBlock(|pg.info|, linger) + pg.info
  }

  // ---------------------------------------------------------------------
  // The write buffer

  /** The write buffer and `write_idx_`. */
  datatype Out = Out(buf: seq<byte>, idx: nat) {
    /** A 1024-byte buffer, and room for at least a terminator after `idx`. */
    predicate Valid() {
      |buf| == WriteBufSize && idx <= WriteBufSize - 2
    }
  }

  /**
   * `vsnprintf(buf + at, size, ...)` rendering `text`: at most `size - 1`
   * bytes of it and a terminating NUL are written.
   */
  function Vsnprintf(buf: seq<byte>, at: nat, size: nat, text: seq<byte>): (r: seq<byte>)
    requires 1 <= size && at + size <= |buf|
    ensures |r| == |buf|
  {
    var k := Min(|text|, size - 1);
    buf[..at] + text[..k] + [NUL] + buf[at + k + 1..]
  }

  /** The result of one AddResponse, and the buffer after it. */
  datatype Emitted = Emitted(ok: bool, out: Out)

  /**
   * AddResponse with the rendered text: it fails, leaving `write_idx_`
   * alone, when the text does not fit before the last byte of the buffer.
   * `vsnprintf` has written (a truncated copy of) the text either way.
   */
  function Emit(o: Out, text: seq<byte>): (r: Emitted)
    requires o.Valid()
    ensures r.out.Valid()
  {
    if o.idx > WriteBufSize then Emitted(false, o)
    else
      var size := WriteBufSize - o.idx - 1;
      var b := Vsnprintf(o.buf, o.idx, size, text);
      if |text| >= size then Emitted(false, Out(b, o.idx))
      else Emitted(true, Out(b, o.idx + |text|))
  }

  /**
   * AddHeaders: Content-Length, Content-Type, Connection, then the blank
   * line, stopping at the first that does not fit. `ok` false means it
   * returns false; otherwise what it returns is unspecified, since it
   * ends without a return statement.
   */
  function Headers(o: Out, n: int, linger: bool): (r: Emitted)
    requires o.Valid()
    ensures r.out.Valid()
  {
    var a := Emit(o, ContentLengthLine(n));
    if !a.ok then a
    else
      var b := Emit(a.out, ContentTypeLine);
      if !b.ok then b
      else
        var c := Emit(b.out, ConnectionLine(linger));
        if !c.ok then c
        else Emitted(true, Emit(c.out, CRLF).out)
  }

  /** What ProcessWrite appends for an error code: status line, headers, page. */
  function ErrorOut(o: Out, code: HttpCode, linger: bool): (r: Out)
    requires o.Valid() && IsError(code)
    ensures r.Valid()
  {
    PageOut(o, PageOf(code), linger)
  }

  function PageOut(o: Out, pg: ErrorPage, linger: bool): (r: Out)
    requires o.Valid()
    ensures r.Valid()
  {
    var s := Emit(o, StatusLine(pg.status, pg.title));
    var h := Headers(s.out, |pg.info|, linger);
    Emit(h.out, pg.info).out
  }

  /** What ProcessWrite appends for FILE_REQUEST: status line and headers; the file follows through the iovec. */
  function FileHeadOut(o: Out, size: int, linger: bool): (r: Out)
    requires o.Valid()
    ensures r.Valid()
  {
    var s := Emit(o, StatusLine(200, OkTitle200));
    Headers(s.out, ToCInt(size), linger).out
  }

  // ---------------------------------------------------------------------
  // Proofs

  /**
   * AddResponse keeps `write_idx_ <= kWriteBufSize - 2`; on success it
   * appends exactly the text and the bytes before `write_idx_` stay; on
   * failure `write_idx_` is unchanged. It succeeds exactly when the text
   * fits.
   */
  lemma EmitSpec(o: Out, text: seq<byte>)
    requires o.Valid()
    ensures var r := Emit(o, text);
      && (r.ok <==> o.idx + |text| <= WriteBufSize - 2)
      && (r.ok ==> r.out.idx == o.idx + |text| && r.out.buf[..r.out.idx] == o.buf[..o.idx] + text)
      && (!r.ok ==> r.out.idx == o.idx && r.out.buf[..o.idx] == o.buf[..o.idx])
  {
    var r := Emit(o, text);
    if r.ok {
      assert r.out.buf[..r.out.idx] == o.buf[..o.idx] + text;
    } else {
      assert r.out.buf[..o.idx] == o.buf[..o.idx];
    }
  }

  /** When the whole header block fits, AddHeaders appends exactly it. */
  lemma HeadersFit(o: Out, n: int, linger: bool)
    requires o.Valid() && o.idx + |HeaderBlock(n, linger)| <= WriteBufSize - 2
    ensures var r := Headers(o, n, linger);
      && r.out.idx == o.idx + |HeaderBlock(n, linger)|
      && r.out.buf[..r.out.idx] == o.buf[..o.idx] + HeaderBlock(n, linger)
  {
    var t1, t2, t3 := ContentLengthLine(n), ContentTypeLine, ConnectionLine(linger);
    assert HeaderBlock(n, linger) == t1 + t2 + t3 + CRLF;
    var a := Emit(o, t1);
    EmitSpec(o, t1);
    var b := Emit(a.out, t2);
    EmitSpec(a.out, t2);
    AppendTwice(o.buf[..o.idx], t1, t2, b.out.buf[..b.out.idx]);
    var c := Emit(b.out, t3);
    EmitSpec(b.out, t3);
    AppendTwice(o.buf[..o.idx], t1 + t2, t3, c.out.buf[..c.out.idx]);
    EmitSpec(c.out, CRLF);
    AppendTwice(o.buf[..o.idx], t1 + t2 + t3, CRLF, Headers(o, n, linger).out.buf[..Headers(o, n, linger).out.idx]);
  }

  /** Associativity of appending, in the form the chains of appends need. */
  lemma AppendTwice(p: seq<byte>, s: seq<byte>, t: seq<byte>, r: seq<byte>)
    requires r == p + s + t
    ensures r == p + (s + t)
  {
  }

  /** A number below 10^k has at most k digits. */
  lemma {:induction false} DigitsLength(n: nat, k: nat, bound: nat)
    requires bound == Pow10(k) && n < bound
    ensures |Digits(n)| <= k || (k == 0 && |Digits(n)| == 1)
  {
    if n >= 10 {
      assert k >= 1;
      DigitsLength(n / 10, k - 1, Pow10(k - 1));
    }
  }

  function Pow10(k: nat): (r: nat)
    ensures r >= 1
  {
    if k == 0 then 1 else 10 * Pow10(k - 1)
  }

  /** A 32-bit `int` renders in at most 11 bytes, sign included. */
  lemma CIntDecimalLength(n: int)
    requires -0x8000_0000 <= n < 0x8000_0000
    ensures |Decimal(n)| <= 11
  {
    assert Pow10(10) == 10_000_000_000;
    if n < 0 {
      DigitsLength(-n, 10, Pow10(10));
    } else {
      DigitsLength(n, 10, Pow10(10));
    }
  }

  /**
   * On an empty write buffer, ProcessWrite's appends for an error code
   * leave exactly the complete error response in it: every piece fits.
   */
  lemma ErrorResponseFits(o: Out, code: HttpCode, linger: bool)
    requires o.Valid() && o.idx == 0 && IsError(code)
    ensures var r := ErrorOut(o, code, linger);
      r.buf[..r.idx] == ErrorResponse(code, linger)
  {
    var pg := PageOf(code);
    assert |pg.title| <= 14 && |pg.info| <= 68 && 400 <= pg.status <= 500;
    PageFits(o, pg, linger);
  }

  /** `ErrorResponseFits` for any page of the size of the server's pages. */
  lemma PageFits(o: Out, pg: ErrorPage, linger: bool)
    requires o.Valid() && o.idx == 0
    requires |pg.title| <= 14 && |pg.info| <= 68 && 400 <= pg.status <= 500
    ensures var r := PageOut(o, pg, linger);
      r.buf[..r.idx] == PageResponse(pg, linger)
  {
    CIntDecimalLength(pg.status);
    CIntDecimalLength(|pg.info|);
    var st := StatusLine(pg.status, pg.title);
    PieceFits(o, st, |pg.info|, linger, pg.info);
    assert o.buf[..o.idx] + st == st;
  }

  /** Status line, headers and page appended in turn, when all of them fit. */
  lemma PieceFits(o: Out, st: seq<byte>, n: int, linger: bool, page: seq<byte>)
    requires o.Valid() && o.idx + |st| + |HeaderBlock(n, linger)| + |page| <= WriteBufSize - 2
    ensures var s := Emit(o, st);
      var h := Headers(s.out, n, linger);
      var r := Emit(h.out, page).out;
      r.buf[..r.idx] == o.buf[..o.idx] + st + HeaderBlock(n, linger) + page
  {
    var s := Emit(o, st);
    EmitSpec(o, st);
    HeadersFit(s.out, n, linger);
    var h := Headers(s.out, n, linger);
    EmitSpec(h.out, page);
  }

  /**
   * On an empty write buffer, the status line and headers of a file
   * response always fit, whatever the file's size.
   */
  lemma FileHeadFits(o: Out, size: int, linger: bool)
    requires o.Valid() && o.idx == 0
    ensures var r := FileHeadOut(o, size, linger);
      r.buf[..r.idx] == StatusLine(200, OkTitle200) + HeaderBlock(ToCInt(size), linger)
  {
    var st := StatusLine(200, OkTitle200);
    var n := ToCInt(size);
    assert |Decimal(200)| == 3;
    assert |st| == 17;
    CIntDecimalLength(n);
    HeaderBlockLength(n, linger);
    var s := Emit(o, st);
    EmitSpec(o, st);
    assert s.out.buf[..s.out.idx] == st;
    HeadersFit(s.out, n, linger);
  }

  /** The header block of a 32-bit length is short. */
  lemma HeaderBlockLength(n: int, linger: bool)
    requires |Decimal(n)| <= 11
    ensures |HeaderBlock(n, linger)| <= 80
  {
    assert |ContentLengthLine(n)| <= 29;
    assert |ConnectionLine(linger)| <= 24;
  }
}
