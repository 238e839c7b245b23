/**
 * The line tokenizer of the request parser: it scans the received bytes
 * for a CRLF terminator and overwrites the terminator with two NULs, so
 * that the line before it reads as a C string.
 */
module LineScanner {
  import opened Bytes
  import opened HttpDefs

  predicate IsStop(b: byte) {
    b == CR || b == LF
  }

  /** No CR or LF in `buf[lo..hi]` (vacuous when `hi <= lo`). */
  predicate NoStop(buf: seq<byte>, lo: int, hi: int)
    requires 0 <= lo && hi <= |buf|
  {
    forall j :: lo <= j < hi ==> !IsStop(buf[j])
  }

  /** The stop byte at `k` is a malformed terminator. */
  predicate BadTerminator(buf: seq<byte>, k: nat, read: nat)
    requires k < read <= |buf|
  {
    (buf[k] == CR && k + 1 < read && buf[k + 1] != LF)
    || (buf[k] == LF && !(k > 1 && buf[k - 1] == CR))
  }

  /** Result of one scan: the line status and where the check cursor ends. */
  datatype Scan = Scan(status: LineStatus, check: nat)

  /**
   * One call of the tokenizer over `buf[check..read]`, as a function of the
   * buffer and the two cursors.
   */
  function ScanLine(buf: seq<byte>, check: nat, read: nat): (r: Scan)
    requires check <= read <= |buf|
    ensures check <= r.check <= read
    ensures r.status == LineOk ==> 2 <= r.check && check < r.check
    decreases read - check
  {
    if check == read then Scan(LineOpen, check)
    else if buf[check] == CR then
      if check + 1 == read then Scan(LineOpen, check)
      else if buf[check + 1] == LF then Scan(LineOk, check + 2)
      else Scan(LineBad, check)
    else if buf[check] == LF then
      if check > 1 && buf[check - 1] == CR then Scan(LineOk, check + 1)
      else Scan(LineBad, check)
    else ScanLine(buf, check + 1, read)
  }

  /** The buffer after a complete line: the two terminator bytes become NUL. */
  function Terminate(buf: seq<byte>, k: nat): (r: seq<byte>)
    requires 2 <= k <= |buf|
    ensures |r| == |buf| && r[k - 2] == NUL && r[k - 1] == NUL
  {
    buf[k - 2 := NUL][k - 1 := NUL]
  }

  /**
   * What the tokenizer decides: it waits (LINE_OPEN) exactly when the unread
   * region holds no CR or LF except possibly a CR as its last byte; it
   * accepts a CRLF pair; it rejects a CR followed by another byte and an LF
   * without a CR right before it.
   */
  lemma {:induction false} ScanLineSpec(buf: seq<byte>, check: nat, read: nat)
    requires check <= read <= |buf|
    ensures var r := ScanLine(buf, check, read);
      && (r.status == LineOpen <==>
            NoStop(buf, check, read - 1) && (check == read || buf[read - 1] != LF))
      && (r.status == LineOpen ==>
            NoStop(buf, check, r.check)
            && (r.check == read || (r.check == read - 1 && buf[r.check] == CR)))
      && (r.status == LineOk ==>
            buf[r.check - 2] == CR && buf[r.check - 1] == LF && NoStop(buf, check, r.check - 2))
      && (r.status == LineBad ==>
            r.check < read && NoStop(buf, check, r.check) && BadTerminator(buf, r.check, read))
    decreases read - check
  {
    if check < read && !IsStop(buf[check]) {
      ScanLineSpec(buf, check + 1, read);
    }
  }

  /**
   * A terminator split across two reads is found as if it had arrived in one:
   * resuming the scan where a LINE_OPEN left the cursor, over a buffer that
   * has since grown, gives the same result as scanning again from the start.
   */
  lemma {:induction false} ScanLineResume(buf: seq<byte>, buf': seq<byte>, check: nat, read: nat, read': nat)
    requires check <= read <= read' <= |buf'| && read <= |buf|
    requires buf[..read] == buf'[..read]
    requires ScanLine(buf, check, read).status == LineOpen
    ensures ScanLine(buf', check, read') == ScanLine(buf', ScanLine(buf, check, read).check, read')
    decreases read - check
  {
    if check < read && !IsStop(buf[check]) {
      assert buf'[check] == buf[..read][check];
      ScanLineResume(buf, buf', check + 1, read, read');
    }
  }
}
