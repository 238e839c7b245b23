/**
 * ParseRequestLine over the read buffer: the request line is a C string
 * at index `t`; the parser cuts it at its spaces by writing NULs and leaves
 * `url_` and `version_` pointing into the buffer. The reading of the same
 * line as text (method, target, version) is the specification it is
 * proved against.
 */
module RequestLine {
  import opened Wrappers
  import opened Bytes
  import opened HttpDefs

  // The tokens the parser compares against, spelled out byte by byte
  // (`TokensSpelled` checks each against its text).
  /** "GET" */
  const TokenGet: seq<byte> := [71, 69, 84]
  /** "HTTP/1.1" */
  const TokenHttp11: seq<byte> := [72, 84, 84, 80, 47, 49, 46, 49]
  /** "http://" */
  const HttpScheme: seq<byte> := [104, 116, 116, 112, 58, 47, 47]

  /** Each token is the ASCII text it stands for. */
  lemma TokensSpelled()
    ensures TokenGet == Lit("GET") && TokenHttp11 == Lit("HTTP/1.1") && HttpScheme == Lit("http://")
  {
  }

  // ---------------------------------------------------------------------
  // The request line as text

  /** The three space-separated parts of a request line. */
  datatype RequestTokens = RequestTokens(methodToken: seq<byte>, target: seq<byte>, version: seq<byte>)

  /** Split at the first two spaces; the version is everything after the second. */
  function SplitRequestLine(line: seq<byte>): Option<RequestTokens> {
    match IndexOf(line, SP)
    case None => None
    case Some(i) =>
      match SplitTarget(line[i + 1..])
      case None => None
      case Some(t) => Some(t.(methodToken := line[..i]))
  }

  /** Split what follows the method at its first space into target and version. */
  function SplitTarget(rest: seq<byte>): Option<RequestTokens> {
    match IndexOf(rest, SP)
    case None => None
    case Some(j) => Some(RequestTokens([], rest[..j], rest[j + 1..]))
  }

  /** The path of a target: an absolute-form target loses `http://` (any case) and its authority. */
  function AbsolutePath(target: seq<byte>): Option<seq<byte>> {
    if HasCasePrefix(target, HttpScheme) then
      match IndexOf(target[7..], SLASH)
      case None => None
      case Some(k) => Some(target[7 + k..])
    else if |target| > 0 && target[0] == SLASH then Some(target)
    else None
  }

  /** HTTP/1.1 (ignoring case) and a target with a path. */
  predicate AcceptsTarget(t: RequestTokens) {
    CaseEq(t.version, TokenHttp11) && AbsolutePath(t.target).Some?
  }

  /** A request line the server accepts: GET (ignoring case), then an acceptable target and version. */
  predicate AcceptsRequestLine(line: seq<byte>) {
    match SplitRequestLine(line)
    case None => false
    case Some(t) => CaseEq(t.methodToken, TokenGet) && AcceptsTarget(t)
  }

  // ---------------------------------------------------------------------
  // The request line in the buffer

  /**
   * What ParseRequestLine leaves behind: its verdict, the buffer with the
   * NULs it wrote, `url_`, whether `method_` was set to GET, and `version_`
   * (meaningful only when `isGet`, since it is not assigned otherwise).
   * None stands for a null pointer.
   */
  datatype LineResult = LineResult(code: HttpCode, buf: seq<byte>, url: Option<nat>, isGet: bool, version: Option<nat>)

  /**
   * Where `url_` points once an `http://` prefix (any case) and the
   * authority after it are skipped: the next `/`, or null if there is none.
   */
  function SkipAuthority(buf: seq<byte>, url: nat): (t: Option<nat>)
    ensures t.Some? ==> t.value < |buf| || t.value == url
  {
    if HasCasePrefix(CStr(buf, url), HttpScheme) then StrChr(buf, url + 7, SLASH)
    else Some(url)
  }

  /** The part of ParseRequestLine after the method: the second space ends the target. */
  function AfterMethod(buf: seq<byte>, url: nat): (r: LineResult)
    requires url < |buf|
    ensures |r.buf| == |buf| && r.isGet
    ensures r.code == NoRequest || r.code == BadRequest
    ensures r.code == NoRequest ==> r.url.Some? && r.version.Some?
  {
    match StrChr(buf, url, SP)
    case None => LineResult(BadRequest, buf, Some(url), true, None)
    case Some(w) => AfterTarget(buf[w := NUL], url, w)
  }

  /** ParseRequestLine once the space after the target, at `w`, has become a NUL: the version and the target are checked. */
  function AfterTarget(b: seq<byte>, url: nat, w: nat): (r: LineResult)
    requires url < |b| && w < |b|
    ensures |r.buf| == |b| && r.isGet
    ensures r.code == NoRequest || r.code == BadRequest
    ensures r.code == NoRequest ==> r.url.Some? && r.version.Some?
  {
    if !CaseEq(CStr(b, w + 1), TokenHttp11) then LineResult(BadRequest, b, Some(url), true, Some(w + 1))
    else
      var target := SkipAuthority(b, url);
      var ok := target.Some? && b[target.value] == SLASH;
      LineResult(if ok then NoRequest else BadRequest, b, target, true, Some(w + 1))
  }

  /**
   * ParseRequestLine as written: `strchr` for the first space is
   * dereferenced unchecked, so a line without a space writes through a null
   * pointer (None here).
   */
  function RequestLineAsWritten(buf: seq<byte>, t: nat): Option<LineResult>
    requires CStrEnd(buf, t) < |buf|
  {
    match StrChr(buf, t, SP)
    case None => None
    case Some(s) => Some(MethodAt(buf, t, s))
  }

  /** ParseRequestLine once the first space is found at `s`: it becomes a NUL and ends the method. */
  function MethodAt(buf: seq<byte>, t: nat, s: nat): (r: LineResult)
    requires CStrEnd(buf, t) < |buf| && StrChr(buf, t, SP) == Some(s)
    ensures |r.buf| == |buf|
    ensures r.code == NoRequest || r.code == BadRequest
    ensures r.code == NoRequest ==> r.url.Some? && r.isGet
  {
    MethodCut(buf[s := NUL], t, s)
  }

  /** The method, cut off by the NUL at `s`, must be GET; the target starts after it. */
  function MethodCut(b: seq<byte>, t: nat, s: nat): (r: LineResult)
    requires s + 1 < |b|
    ensures |r.buf| == |b|
    ensures r.code == NoRequest || r.code == BadRequest
    ensures r.code == NoRequest ==> r.url.Some? && r.isGet
  {
    if !CaseEq(CStr(b, t), TokenGet) then LineResult(BadRequest, b, Some(s + 1), false, None)
    else AfterMethod(b, s + 1)
  }

  /**
   * ParseRequestLine with the missing null check added: a line without a
   * space is a bad request and the buffer is left alone.
   */
  function ParseRequestLine(buf: seq<byte>, t: nat): (r: LineResult)
    requires CStrEnd(buf, t) < |buf|
    ensures |r.buf| == |buf|
    ensures r.code == NoRequest || r.code == BadRequest
    ensures r.code == NoRequest ==> r.url.Some? && r.isGet
  {
    match StrChr(buf, t, SP)
    case None => LineResult(BadRequest, buf, None, false, None)
    case Some(s) => MethodAt(buf, t, s)
  }

  // ---------------------------------------------------------------------
  // Proofs

  /**
   * Cutting a C string at its first space: the text before the space and the
   * text after it become C strings of their own.
   */
  lemma SpaceCut(buf: seq<byte>, i: nat, w: nat)
    requires i < |buf| && StrChr(buf, i, SP) == Some(w)
    ensures var s := CStr(buf, i);
      && IndexOf(s, SP) == Some(w - i)
      && CStr(buf[w := NUL], i) == s[..w - i]
      && CStr(buf[w := NUL], w + 1) == s[w - i + 1..]
  {
    StrChrIsIndexOf(buf, i, SP);
    CStrCut(buf, i, w);
  }

  /**
   * The target is accepted exactly when, once a case-insensitive `http://`
   * and its authority are removed, it starts with `/`; `url_` then reads as
   * that path.
   */
  lemma SkipAuthoritySpec(buf: seq<byte>, url: nat)
    requires url < |buf|
    ensures var t := SkipAuthority(buf, url);
      var path := AbsolutePath(CStr(buf, url));
      && (t.Some? && buf[t.value] == SLASH <==> path.Some?)
      && (path.Some? ==> CStr(buf, t.value) == path.value)
  {
    var u := CStr(buf, url);
    CStrEndSpec(buf, url);
    if HasCasePrefix(u, HttpScheme) {
      CStrSuffix(buf, url, url + 7);
      StrChrIsIndexOf(buf, url + 7, SLASH);
      match IndexOf(u[7..], SLASH) {
        case None =>
        case Some(k) =>
          CStrSuffix(buf, url, url + 7 + k);
      }
    } else if |u| > 0 {
      assert buf[url] == u[0];
    }
  }

  /**
   * After the method, the line is accepted exactly when the rest splits at a
   * space into an acceptable target and version; `url_` and `version_` then
   * read as the path and the version text.
   */
  lemma AfterMethodSpec(buf: seq<byte>, url: nat)
    requires url < |buf|
    ensures var r := AfterMethod(buf, url);
      var t := SplitTarget(CStr(buf, url));
      && (r.code == NoRequest <==> t.Some? && AcceptsTarget(t.value))
      && (r.code == NoRequest ==>
            && CStr(r.buf, r.url.value) == AbsolutePath(t.value.target).value
            && CStr(r.buf, r.version.value) == t.value.version)
  {
    match StrChr(buf, url, SP) {
      case None =>
        StrChrIsIndexOf(buf, url, SP);
      case Some(w) =>
        var rest := CStr(buf, url);
        SpaceCut(buf, url, w);
        var tk := RequestTokens([], rest[..w - url], rest[w - url + 1..]);
        assert SplitTarget(rest) == Some(tk);
        AfterTargetSpec(buf[w := NUL], url, w, tk);
    }
  }

  /** Once the target and the version are C strings of their own, they are checked as text. */
  lemma AfterTargetSpec(b: seq<byte>, url: nat, w: nat, tk: RequestTokens)
    requires url < |b| && w < |b| && CStr(b, url) == tk.target && CStr(b, w + 1) == tk.version
    ensures var r := AfterTarget(b, url, w);
      && (r.code == NoRequest <==> AcceptsTarget(tk))
      && (r.code == NoRequest ==>
            && CStr(r.buf, r.url.value) == AbsolutePath(tk.target).value
            && CStr(r.buf, r.version.value) == tk.version)
  {
    SkipAuthoritySpec(b, url);
  }

  /**
   * The request line is accepted exactly when its method is GET and its
   * version HTTP/1.1 (both ignoring case) and its target, once an `http://`
   * authority is removed, starts with `/`; `url_` then reads as that path
   * and `version_` as the version text.
   */
  lemma ParseRequestLineSpec(buf: seq<byte>, t: nat)
    requires CStrEnd(buf, t) < |buf|
    ensures var r := ParseRequestLine(buf, t);
      var line := CStr(buf, t);
      && (r.code == NoRequest <==> AcceptsRequestLine(line))
      && (r.code == NoRequest ==>
            var tk := SplitRequestLine(line).value;
            && CStr(r.buf, r.url.value) == AbsolutePath(tk.target).value
            && CStr(r.buf, r.version.value) == tk.version)
  {
    match StrChr(buf, t, SP) {
      case None =>
        StrChrIsIndexOf(buf, t, SP);
      case Some(s) =>
        MethodAtSpec(buf, t, s);
    }
  }

  /** `ParseRequestLineSpec` for a line whose first space is at `s`. */
  lemma MethodAtSpec(buf: seq<byte>, t: nat, s: nat)
    requires CStrEnd(buf, t) < |buf| && StrChr(buf, t, SP) == Some(s)
    ensures s + 1 < |buf|
    ensures var r := MethodAt(buf, t, s);
      var line := CStr(buf, t);
      && (r.code == NoRequest <==> AcceptsRequestLine(line))
      && (r.code == NoRequest ==>
            var tk := SplitRequestLine(line).value;
            && CStr(r.buf, r.url.value) == AbsolutePath(tk.target).value
            && CStr(r.buf, r.version.value) == tk.version)
  {
    var line := CStr(buf, t);
    var i := s - t;
    SpaceCut(buf, t, s);
    AcceptsAtSpace(line, i);
    if CaseEq(line[..i], TokenGet) {
      GetLineSpec(buf, t, s, line, i);
    }
  }

  /** `MethodAtSpec` when the method is GET. */
  lemma GetLineSpec(buf: seq<byte>, t: nat, s: nat, line: seq<byte>, i: nat)
    requires CStrEnd(buf, t) < |buf| && StrChr(buf, t, SP) == Some(s) && s + 1 < |buf|
    requires t <= s && i == s - t && line == CStr(buf, t) && IndexOf(line, SP) == Some(i)
    requires CStr(buf[s := NUL], t) == line[..i] && CStr(buf[s := NUL], s + 1) == line[i + 1..]
    requires CaseEq(line[..i], TokenGet)
    ensures var r := MethodAt(buf, t, s);
      var tk := SplitTarget(line[i + 1..]);
      && r == AfterMethod(buf[s := NUL], s + 1)
      && (r.code == NoRequest <==> tk.Some? && AcceptsTarget(tk.value))
      && (r.code == NoRequest ==>
            && CStr(r.buf, r.url.value) == AbsolutePath(tk.value.target).value
            && CStr(r.buf, r.version.value) == tk.value.version)
  {
    AfterMethodSpec(buf[s := NUL], s + 1);
  }

  /** Reading a line whose first space is at `i`. */
  lemma AcceptsAtSpace(line: seq<byte>, i: nat)
    requires IndexOf(line, SP) == Some(i)
    ensures var tk := SplitTarget(line[i + 1..]);
      && SplitRequestLine(line) == (if tk.None? then None else Some(tk.value.(methodToken := line[..i])))
      && (AcceptsRequestLine(line) <==> CaseEq(line[..i], TokenGet) && tk.Some? && AcceptsTarget(tk.value))
  {
  }

  /** A line without a space makes the code as written write through a null pointer. */
  lemma NoSpaceDereferencesNull(buf: seq<byte>, t: nat)
    requires CStrEnd(buf, t) < |buf| && SP !in CStr(buf, t)
    ensures RequestLineAsWritten(buf, t).None?
  {
    StrChrIsIndexOf(buf, t, SP);
    IndexOfSpec(CStr(buf, t), SP);
  }

  /** The request line "GET" alone, as the tokenizer leaves it in the buffer. */
  lemma BareMethodLine()
    ensures RequestLineAsWritten([71, 69, 84, 0, 0], 0).None?
    ensures ParseRequestLine([71, 69, 84, 0, 0], 0).code == BadRequest
  {
    var buf: seq<byte> := [71, 69, 84, 0, 0];
    assert CStrEnd(buf, 0) == 3;
  }

  /** The corrected parser agrees with the code as written wherever that one does not crash. */
  lemma ParseRequestLineRefines(buf: seq<byte>, t: nat)
    requires CStrEnd(buf, t) < |buf|
    ensures RequestLineAsWritten(buf, t).Some? ==> RequestLineAsWritten(buf, t).value == ParseRequestLine(buf, t)
    ensures RequestLineAsWritten(buf, t).None? <==> SP !in CStr(buf, t)
  {
    StrChrIsIndexOf(buf, t, SP);
    IndexOfSpec(CStr(buf, t), SP);
  }
}
