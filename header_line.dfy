/**
 * ParseHeader over the read buffer: a header line is a C string at index
 * `t`; the parser cuts it at its first colon and reads the key before the
 * colon and the value two bytes after it. The reading of the same line as
 * text is the specification it is proved against.
 */
module HeaderLine {
  import opened Wrappers
  import opened Bytes

  const COLON: byte := 58

  // The keys and the value the parser compares against, spelled out byte by
  // byte (`KeysSpelled` checks each against its text).
  /** "Host" */
  const KeyHost: seq<byte> := [72, 111, 115, 116]
  /** "Connection" */
  const KeyConnection: seq<byte> := [67, 111, 110, 110, 101, 99, 116, 105, 111, 110]
  /** "keep-alive" */
  const TokenKeepAlive: seq<byte> := [107, 101, 101, 112, 45, 97, 108, 105, 118, 101]
  /** "Content-Length" */
  const KeyContentLength: seq<byte> := [67, 111, 110, 116, 101, 110, 116, 45, 76, 101, 110, 103, 116, 104]

  /** The short keys are the ASCII text they stand for. */
  lemma KeysSpelled()
    ensures KeyHost == Lit("Host") && KeyConnection == Lit("Connection")
  {
  }

  /** The long key and the value are the ASCII text they stand for. */
  lemma LongKeysSpelled()
    ensures TokenKeepAlive == Lit("keep-alive") && KeyContentLength == Lit("Content-Length")
  {
  }

  /**
   * What one header line does to the connection: the empty line ends the
   * headers, a line without a colon is malformed, and a field sets `host_`
   * (to the index of its value), `linger_`, `content_len_`, or nothing.
   */
  datatype HeaderEffect =
    | EndOfHeaders
    | Malformed
    | SetHost(at: nat)
    | SetLinger
    | SetContentLength(n: int)
    | NoEffect

  /** The buffer ParseHeader leaves behind and what the line did. */
  datatype HeaderResult = HeaderResult(buf: seq<byte>, effect: HeaderEffect)

  /**
   * The effect of a field with key `key` and value `value` found at index
   * `valueAt`; keys compare ignoring case, and so does `keep-alive`.
   */
  function FieldEffect(key: seq<byte>, value: seq<byte>, valueAt: nat): HeaderEffect {
    if CaseEq(key, KeyHost) then SetHost(valueAt)
    else if CaseEq(key, KeyConnection) then (if CaseEq(value, TokenKeepAlive) then SetLinger else NoEffect)
    else if CaseEq(key, KeyContentLength) then SetContentLength(Atoi(value))
    else NoEffect
  }

  /**
   * ParseHeader on the line at `t`: a NUL first byte is the empty line;
   * otherwise the first colon becomes NUL and the value is taken two bytes
   * after it, skipping the space that conventionally follows the colon.
   */
  function ParseHeaderLine(buf: seq<byte>, t: nat): (r: HeaderResult)
    requires t < |buf|
    ensures |r.buf| == |buf|
    ensures r.effect.EndOfHeaders? || r.effect.Malformed? ==> r.buf == buf
  {
    if buf[t] == NUL then HeaderResult(buf, EndOfHeaders)
    else match StrChr(buf, t, COLON)
      case None => HeaderResult(buf, Malformed)
      case Some(c) => CutField(buf[c := NUL], t, c)
  }

  /**
   * The value of the field line at `t` whose first colon is `i` bytes in:
   * the line from two bytes past the colon, or, when the colon ends the
   * line, what follows the line's terminator.
   */
  function FieldValue(buf: seq<byte>, t: nat, i: nat): seq<byte> {
    var line := CStr(buf, t);
    if i + 2 <= |line| then line[i + 2..] else CStr(buf, t + i + 2)
  }

  /** A field line once its first colon, at `c`, is a NUL: the key is before it, the value two bytes after. */
  function CutField(b: seq<byte>, t: nat, c: nat): (r: HeaderResult)
    ensures r.buf == b
  {
    HeaderResult(b, FieldEffect(CStr(b, t), CStr(b, c + 2), c + 2))
  }

  /**
   * ParseHeader read as text: the empty line ends the headers; a line
   * without a colon is malformed and leaves the buffer alone; otherwise
   * only the first colon becomes NUL, the key is the text before it, and
   * the value is the rest of the line from two bytes past the colon (or,
   * for a colon that ends the line, what follows the line's terminator).
   */
  lemma ParseHeaderLineSpec(buf: seq<byte>, t: nat)
    requires t < |buf|
    ensures var r := ParseHeaderLine(buf, t);
      var line := CStr(buf, t);
      && (line == [] <==> r.effect == EndOfHeaders)
      && (line != [] && COLON !in line <==> r.effect == Malformed)
      && (IndexOf(line, COLON).Some? ==>
            var i := IndexOf(line, COLON).value;
            r == HeaderResult(buf[t + i := NUL], FieldEffect(line[..i], FieldValue(buf, t, i), t + i + 2)))
  {
    EmptyHeaderLine(buf, t);
    MalformedHeaderLine(buf, t);
    if IndexOf(CStr(buf, t), COLON).Some? {
      FieldLineSpec(buf, t, IndexOf(CStr(buf, t), COLON).value);
    }
  }

  /** `ParseHeaderLineSpec` for the empty line. */
  lemma EmptyHeaderLine(buf: seq<byte>, t: nat)
    requires t < |buf|
    ensures CStr(buf, t) == [] <==> ParseHeaderLine(buf, t).effect == EndOfHeaders
  {
    if buf[t] != NUL {
      assert CStrEnd(buf, t) > t;
    }
  }

  /** `ParseHeaderLineSpec` for a line without a colon. */
  lemma MalformedHeaderLine(buf: seq<byte>, t: nat)
    requires t < |buf|
    ensures CStr(buf, t) != [] && COLON !in CStr(buf, t) <==> ParseHeaderLine(buf, t).effect == Malformed
  {
    if buf[t] != NUL {
      assert CStrEnd(buf, t) > t;
      StrChrIsIndexOf(buf, t, COLON);
      IndexOfSpec(CStr(buf, t), COLON);
    }
  }

  /** `ParseHeaderLineSpec` for a line whose first colon is at `i`. */
  lemma FieldLineSpec(buf: seq<byte>, t: nat, i: nat)
    requires t < |buf| && IndexOf(CStr(buf, t), COLON) == Some(i)
    ensures var line := CStr(buf, t);
      var value := FieldValue(buf, t, i);
      ParseHeaderLine(buf, t) == HeaderResult(buf[t + i := NUL], FieldEffect(line[..i], value, t + i + 2))
  {
    ColonIsFirst(buf, t, i);
    ColonAt(buf, t, t + i);
    KeyValueAt(buf, t, i);
  }

  /** A first colon at offset `i` of the line is where `strchr` stops, inside the line, which is not empty. */
  lemma ColonIsFirst(buf: seq<byte>, t: nat, i: nat)
    requires t < |buf| && IndexOf(CStr(buf, t), COLON) == Some(i)
    ensures StrChr(buf, t, COLON) == Some(t + i) && buf[t] != NUL && t + i < CStrEnd(buf, t)
  {
    StrChrFound(buf, t, COLON, i);
    assert t < CStrEnd(buf, t);
  }

  /** Once the colon at offset `i` is a NUL, the key is the line before it and the value starts two bytes after it. */
  lemma KeyValueAt(buf: seq<byte>, t: nat, i: nat)
    requires t + i < CStrEnd(buf, t) && t <= |buf|
    ensures var line := CStr(buf, t);
      var b := buf[t + i := NUL];
      (CStr(b, t), CStr(b, t + i + 2)) == (line[..i], FieldValue(buf, t, i))
  {
    CStrCutBefore(buf, t, t + i);
    ValueAfterColon(buf, t, t + i);
  }

  /** ParseHeaderLine on a line whose first colon is at `c`, unfolded. */
  lemma ColonAt(buf: seq<byte>, t: nat, c: nat)
    requires t < |buf| && buf[t] != NUL && StrChr(buf, t, COLON) == Some(c)
    ensures ParseHeaderLine(buf, t) == CutField(buf[c := NUL], t, c)
  {
  }

  /** The value two bytes past a colon at `c`, once the colon is cut. */
  lemma ValueAfterColon(buf: seq<byte>, t: nat, c: nat)
    requires t <= c < CStrEnd(buf, t) && t <= |buf|
    ensures var line := CStr(buf, t);
      var i := c - t;
      CStr(buf[c := NUL], c + 2) == if i + 2 <= |line| then line[i + 2..] else CStr(buf, c + 2)
  {
    var b := buf[c := NUL];
    if c + 2 <= CStrEnd(buf, t) {
      CStrSuffix(buf, t, c + 2);
      CStrFrame(buf, b, c + 2);
    } else if c + 2 <= |buf| {
      CStrFrame(buf, b, c + 2);
    }
  }

  /** `strcasecmp` of a string with itself is 0. */
  lemma {:induction false} CaseEqFromRefl(a: seq<byte>, i: nat)
    ensures CaseEqFrom(a, a, i)
    decreases |a| - i
  {
    if i < |a| {
      CaseEqFromRefl(a, i + 1);
    }
  }

  /**
   * A `Content-Length` field whose value is a number rendered by `%d`
   * sets `content_len_` to that number, and the keys do not shadow each
   * other. The number must fit the `int` that `atoi` returns.
   */
  lemma ContentLengthField(n: int, at: nat)
    requires -0x8000_0000 <= n < 0x8000_0000
    ensures FieldEffect(KeyContentLength, Decimal(n), at) == SetContentLength(n)
  {
    CaseEqFromRefl(KeyContentLength, 0);
    AtoiDecimal(n);
  }

  /** `Connection: keep-alive`, in any case mix of the value, sets `linger_`. */
  lemma KeepAliveField(value: seq<byte>, at: nat)
    requires CaseEq(value, TokenKeepAlive)
    ensures FieldEffect(KeyConnection, value, at) == SetLinger
  {
    CaseEqFromRefl(KeyConnection, 0);
  }

  /** A `Host` field records where its value starts. */
  lemma HostField(value: seq<byte>, at: nat)
    ensures FieldEffect(KeyHost, value, at) == SetHost(at)
  {
    CaseEqFromRefl(KeyHost, 0);
  }
}
