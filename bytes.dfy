/**
 * Bytes and the few libc string routines the connection code relies on:
 * NUL-terminated views of a buffer, `strchr`, `strcasecmp`/`strncasecmp`,
 * `atoi` and the `%d` conversion of `vsnprintf`.
 */
module Bytes {
  import opened Wrappers

  newtype byte = x: int | 0 <= x < 256

  const NUL: byte := 0
  const LF: byte := 10
  const CR: byte := 13
  const SP: byte := 32
  const SLASH: byte := 47

  function Min(a: nat, b: nat): nat {
    if a <= b then a else b
  }

  /** The bytes of an ASCII string literal. */
  function Lit(s: string): (r: seq<byte>)
    ensures |r| == |s|
  {
    seq(|s|, i requires 0 <= i < |s| => (s[i] as int % 256) as byte)
  }

  /** `tolower` in the C locale: only 'A'..'Z' change. */
  function ToLower(b: byte): byte {
    if 65 <= b <= 90 then b + 32 else b
  }

  /** `strcasecmp(a, b) == 0` for two NUL-free strings. */
  predicate CaseEq(a: seq<byte>, b: seq<byte>) {
    |a| == |b| && CaseEqFrom(a, b, 0)
  }

  /** `a` and `b` agree ignoring case from index `i` on. */
  predicate CaseEqFrom(a: seq<byte>, b: seq<byte>, i: nat)
    requires |a| == |b|
    decreases |a| - i
  {
    i >= |a| || (ToLower(a[i]) == ToLower(b[i]) && CaseEqFrom(a, b, i + 1))
  }

  /** `strncasecmp(s, pre, |pre|) == 0` for a NUL-free `pre`. */
  predicate HasCasePrefix(s: seq<byte>, pre: seq<byte>) {
    |s| >= |pre| && CaseEq(s[..|pre|], pre)
  }

  /** Index of the first NUL at or after `i` (the end of the buffer if none). */
  function CStrEnd(buf: seq<byte>, i: nat): (e: nat)
    ensures i <= e
    ensures e <= |buf| || e == i
    decreases |buf| - i
  {
    if i >= |buf| || buf[i] == NUL then i else CStrEnd(buf, i + 1)
  }

  /** `CStrEnd` is the first NUL: none before it, and a NUL at it unless it is the end. */
  lemma {:induction false} CStrEndSpec(buf: seq<byte>, i: nat)
    ensures forall j :: i <= j < CStrEnd(buf, i) ==> j < |buf| && buf[j] != NUL
    ensures CStrEnd(buf, i) < |buf| ==> buf[CStrEnd(buf, i)] == NUL
    decreases |buf| - i
  {
    if i < |buf| && buf[i] != NUL {
      CStrEndSpec(buf, i + 1);
      assert CStrEnd(buf, i) == CStrEnd(buf, i + 1);
      forall j | i <= j < CStrEnd(buf, i)
        ensures j < |buf| && buf[j] != NUL
      {
        if j > i {
          assert i + 1 <= j < CStrEnd(buf, i + 1);
        }
      }
    } else {
      assert CStrEnd(buf, i) == i;
    }
  }

  /** The C string that starts at index `i` of `buf`. */
  function CStr(buf: seq<byte>, i: nat): seq<byte> {
    if i <= |buf| then buf[i..CStrEnd(buf, i)] else []
  }

  /** `strchr(buf + i, c)` for a non-NUL `c`: the first `c` before the terminator. */
  function StrChr(buf: seq<byte>, i: nat, c: byte): (r: Option<nat>)
    requires c != NUL
    ensures r.Some? ==> i <= r.value < CStrEnd(buf, i) && r.value < |buf| && buf[r.value] == c
    decreases |buf| - i
  {
    if i >= |buf| || buf[i] == NUL then None
    else if buf[i] == c then Some(i)
    else StrChr(buf, i + 1, c)
  }

  /** `strchr` finds the first `c`, and none means no `c` in the C string. */
  lemma {:induction false} StrChrSpec(buf: seq<byte>, i: nat, c: byte)
    requires c != NUL
    ensures StrChr(buf, i, c).Some? ==> forall j :: i <= j < StrChr(buf, i, c).value ==> buf[j] != c
    ensures StrChr(buf, i, c).None? ==> forall j :: i <= j < CStrEnd(buf, i) ==> buf[j] != c
    decreases |buf| - i
  {
    if i < |buf| && buf[i] != NUL && buf[i] != c {
      StrChrSpec(buf, i + 1, c);
    }
  }

  /** Index of the first `c` in `s`, if any. */
  function IndexOf(s: seq<byte>, c: byte): (r: Option<nat>)
    ensures r.Some? ==> r.value < |s|
  {
    if |s| == 0 then None
    else if s[0] == c then Some(0)
    else match IndexOf(s[1..], c)
      case None => None
      case Some(k) => Some(k + 1)
  }

  /** `IndexOf` finds the first `c`, and None means there is none. */
  lemma {:induction false} IndexOfSpec(s: seq<byte>, c: byte)
    ensures IndexOf(s, c).Some? ==> s[IndexOf(s, c).value] == c && c !in s[..IndexOf(s, c).value]
    ensures IndexOf(s, c).None? <==> c !in s
  {
    if |s| > 0 && s[0] != c {
      IndexOfSpec(s[1..], c);
      match IndexOf(s[1..], c) {
        case None =>
        case Some(k) =>
          assert s[..k + 1] == [s[0]] + s[1..][..k];
      }
    }
  }

  predicate IsDigit(b: byte) {
    48 <= b <= 57
  }

  /** `isspace` in the C locale. */
  predicate IsSpace(b: byte) {
    b == SP || 9 <= b <= 13
  }

  /** The longest prefix of `s` made of decimal digits. */
  function LeadingDigits(s: seq<byte>): (d: seq<byte>)
    ensures d <= s
    ensures forall i :: 0 <= i < |d| ==> IsDigit(d[i])
    ensures |d| < |s| ==> !IsDigit(s[|d|])
  {
    if |s| > 0 && IsDigit(s[0]) then [s[0]] + LeadingDigits(s[1..]) else []
  }

  /** The value of a string of decimal digits, most significant first. */
  function DigitsValue(d: seq<byte>): nat
    requires forall i :: 0 <= i < |d| ==> IsDigit(d[i])
  {
    if |d| == 0 then 0
    else
      assert IsDigit(d[|d| - 1]);
      DigitsValue(d[..|d| - 1]) * 10 + (d[|d| - 1] as int - 48)
  }

  /**
   * `atoi`: leading white space, an optional sign, then the leading digits;
   * parsing stops at the first other byte and yields 0 when no digit follows.
   */
  function Atoi(s: seq<byte>): int {
    if |s| > 0 && IsSpace(s[0]) then Atoi(s[1..])
    else if |s| > 0 && s[0] == 45 then 0 - DigitsValue(LeadingDigits(s[1..]))
    else if |s| > 0 && s[0] == 43 then DigitsValue(LeadingDigits(s[1..]))
    else DigitsValue(LeadingDigits(s))
  }

  /** Decimal digits of a natural number, most significant first, no leading zero. */
  function Digits(n: nat): (d: seq<byte>)
    ensures 1 <= |d|
    ensures forall i :: 0 <= i < |d| ==> IsDigit(d[i])
    ensures |d| > 1 ==> d[0] != 48
  {
    if n < 10 then [(48 + n) as byte] else Digits(n / 10) + [(48 + n % 10) as byte]
  }

  /** `%d` as `vsnprintf` renders it. */
  function Decimal(n: int): (d: seq<byte>)
    ensures 1 <= |d|
  {
    if n < 0 then [45 as byte] + Digits(-n) else Digits(n)
  }

  lemma {:induction false} DigitsValueOfDigits(n: nat)
    ensures DigitsValue(Digits(n)) == n
  {
    if n >= 10 {
      var d := Digits(n);
      assert d[..|d| - 1] == Digits(n / 10);
      DigitsValueOfDigits(n / 10);
    }
  }

  lemma {:induction false} LeadingDigitsOfDigits(d: seq<byte>)
    requires forall i :: 0 <= i < |d| ==> IsDigit(d[i])
    ensures LeadingDigits(d) == d
  {
    if |d| > 0 {
      LeadingDigitsOfDigits(d[1..]);
      assert d == [d[0]] + d[1..];
    }
  }

  /** What `%d` renders, `atoi` reads back: the two conversions are inverse. */
  lemma AtoiDecimal(n: int)
    ensures Atoi(Decimal(n)) == n
  {
    var m := if n < 0 then -n else n;
    LeadingDigitsOfDigits(Digits(m));
    DigitsValueOfDigits(m);
    if n < 0 {
      assert Decimal(n)[1..] == Digits(m);
    }
  }

  /** A NUL at or after `i` bounds the C string at `i`. */
  lemma CStrEndBound(buf: seq<byte>, i: nat, k: nat)
    requires i <= k < |buf| && buf[k] == NUL
    ensures CStrEnd(buf, i) <= k
  {
    CStrEndSpec(buf, i);
  }

  /** The terminator of a C string is its first NUL. */
  lemma CStrEndAt(buf: seq<byte>, i: nat, k: nat)
    requires i <= k < |buf| && buf[k] == NUL
    requires forall j :: i <= j < k ==> buf[j] != NUL
    ensures CStrEnd(buf, i) == k
  {
    CStrEndSpec(buf, i);
  }

  /** A C string holds no NUL. */
  lemma CStrNoNul(buf: seq<byte>, i: nat)
    ensures NUL !in CStr(buf, i)
  {
    CStrEndSpec(buf, i);
  }

  /** A C string starting inside another is a suffix of it. */
  lemma CStrSuffix(buf: seq<byte>, i: nat, k: nat)
    requires i <= k <= CStrEnd(buf, i) && i <= |buf|
    ensures CStrEnd(buf, k) == CStrEnd(buf, i)
    ensures CStr(buf, k) == CStr(buf, i)[k - i..]
  {
    CStrEndSpec(buf, i);
    CStrEndSpec(buf, k);
  }

  /**
   * Writing a NUL at `w` inside the C string at `i` cuts it at `w`, and the
   * C string after `w` is the rest of the old one.
   */
  lemma CStrCut(buf: seq<byte>, i: nat, w: nat)
    requires i <= w < CStrEnd(buf, i) && i <= |buf|
    ensures CStrEnd(buf[w := NUL], i) == w
    ensures CStr(buf[w := NUL], i) == CStr(buf, i)[..w - i]
    ensures CStrEnd(buf[w := NUL], w + 1) == CStrEnd(buf, i)
    ensures CStr(buf[w := NUL], w + 1) == CStr(buf, i)[w - i + 1..]
  {
    CStrCutBefore(buf, i, w);
    CStrCutAfter(buf, i, w);
  }

  /** Writing a NUL at `w` inside the C string at `i` leaves the rest of it as the C string after `w`. */
  lemma CStrCutAfter(buf: seq<byte>, i: nat, w: nat)
    requires i <= w < CStrEnd(buf, i) && i <= |buf|
    ensures CStrEnd(buf[w := NUL], w + 1) == CStrEnd(buf, i)
    ensures CStr(buf[w := NUL], w + 1) == CStr(buf, i)[w - i + 1..]
  {
    var b := buf[w := NUL];
    CStrSuffix(buf, i, w + 1);
    assert forall j :: w + 1 <= j < |buf| ==> b[j] == buf[j];
    CStrFrame(buf, b, w + 1);
  }

  /** Writing a NUL at `w` inside the C string at `i` ends it at `w`. */
  lemma CStrCutBefore(buf: seq<byte>, i: nat, w: nat)
    requires i <= w < CStrEnd(buf, i) && i <= |buf|
    ensures CStrEnd(buf[w := NUL], i) == w
    ensures CStr(buf[w := NUL], i) == CStr(buf, i)[..w - i]
  {
    CStrEndSpec(buf, i);
    CStrEndAt(buf[w := NUL], i, w);
  }

  /** A C string depends only on its own bytes and its terminator. */
  lemma {:induction false} CStrFrame(buf: seq<byte>, buf': seq<byte>, i: nat)
    requires |buf| == |buf'| && i <= |buf|
    requires forall j :: i <= j <= CStrEnd(buf, i) && j < |buf| ==> buf'[j] == buf[j]
    ensures CStrEnd(buf', i) == CStrEnd(buf, i)
    ensures CStr(buf', i) == CStr(buf, i)
    decreases |buf| - i
  {
    if i < |buf| && buf[i] != NUL {
      CStrFrame(buf, buf', i + 1);
    }
  }

  /** `strchr` over the buffer finds what a search of the C string finds. */
  lemma StrChrIsIndexOf(buf: seq<byte>, i: nat, c: byte)
    requires c != NUL && i <= |buf|
    ensures StrChr(buf, i, c) ==
      match IndexOf(CStr(buf, i), c)
      case None => None
      case Some(k) => Some(i + k)
  {
    StrChrSpec(buf, i, c);
    var line := CStr(buf, i);
    IndexOfSpec(line, c);
    match IndexOf(line, c) {
      case None =>
      case Some(k) =>
        assert buf[i + k] == c;
    }
  }

  /** `strchr` stops at the first `c` of the C string, `k` bytes in. */
  lemma StrChrFound(buf: seq<byte>, i: nat, c: byte, k: nat)
    requires c != NUL && i <= |buf| && IndexOf(CStr(buf, i), c) == Some(k)
    ensures StrChr(buf, i, c) == Some(i + k)
  {
    StrChrIsIndexOf(buf, i, c);
  }
}
