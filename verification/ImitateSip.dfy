/** SIP responses (RFC 3261) written in front of a packet by device/obf_imitate.go. The interesting part is
  Content-Length, whose own digits count towards the header it ends. */
module ImitateSip {
  import opened Bytes
  import opened Sequences
  import opened Imitation

  // ----- Decimal numbers

  function Pow10(n: nat): (p: nat)
    ensures p > 0
  {
    if n == 0 then 1 else 10 * Pow10(n - 1)
  }

  /** How many digits a number has. */
  function Digits(value: nat): (d: nat)
    ensures d > 0
  {
    if value < 10 then 1 else 1 + Digits(value / 10)
  }

  lemma {:induction false} DigitsBound(value: nat)
    ensures value < Pow10(Digits(value))
    ensures value > 0 ==> Pow10(Digits(value) - 1) <= value
  {
    if value >= 10 {
      DigitsBound(value / 10);
      assert Pow10(Digits(value)) == 10 * Pow10(Digits(value / 10));
      assert Pow10(Digits(value / 10)) == 10 * Pow10(Digits(value / 10) - 1);
    } else {
      assert Pow10(1) == 10 && Pow10(0) == 1;
    }
  }

  lemma {:induction false} Pow10Monotone(m: nat, n: nat)
    ensures m <= n ==> Pow10(m) <= Pow10(n)
    decreases n
  {
    if m >= n {
    } else {
      Pow10Monotone(m, n - 1);
    }
  }

  /** The number of digits is determined by the power of ten above the number. */
  lemma DigitsIs(value: nat, d: nat)
    requires d > 0 && value < Pow10(d) && (d > 1 ==> Pow10(d - 1) <= value)
    ensures Digits(value) == d
  {
    hide Digits, Pow10;
    DigitsBound(value);
    Pow10Monotone(Digits(value), d - 1);
    Pow10Monotone(d, Digits(value) - 1);
    ZeroDigits();
  }

  lemma PowStep(n: nat)
    ensures Pow10(n + 1) == 10 * Pow10(n)
  {
  }

  lemma ZeroDigits()
    ensures Digits(0) == 1
  {
  }

  lemma DigitsMonotone(x: nat, y: nat)
    requires x <= y
    ensures Digits(x) <= Digits(y)
  {
    if x < 10 || y < 10 {
    } else {
      DigitsMonotone(x / 10, y / 10);
    }
  }

  /** One less has as many digits, or one digit less at a power of ten. */
  lemma DigitsStep(x: nat)
    requires x > 0
    ensures Digits(x - 1) == Digits(x) || (Digits(x - 1) == Digits(x) - 1 && x == Pow10(Digits(x) - 1))
  {
    hide Digits, Pow10;
    var d := Digits(x);
    DigitsBound(x);
    if x == Pow10(d - 1) {
      if d > 1 {
        PowStep(d - 2);
        DigitsIs(x - 1, d - 1);
      } else {
        FirstPower();
        ZeroDigits();
      }
    } else {
      DigitsIs(x - 1, d);
    }
  }

  lemma FirstPower()
    ensures Pow10(0) == 1
  {
  }

  method DecimalDigits(value: nat) returns (digits: nat)
    ensures digits == Digits(value)
  {
    digits := 1;
    var v := value;
    while v >= 10
      invariant digits > 0 && digits - 1 + Digits(v) == Digits(value)
    {
      v := v / 10;
      digits := digits + 1;
    }
  }

  // ----- Content-Length

  /** The end of the header block if Content-Length is written with `sws` spaces and `digits` digits. */
  function HeaderEnd(pos: nat, sws: nat, digits: nat): nat {
    pos + 15 + sws + digits + 4
  }

  /** The choice is consistent: the bytes that remain take exactly `digits` digits to count. */
  predicate Solves(pos: nat, total: nat, length: nat, sws: nat, digits: nat) {
    && HeaderEnd(pos, sws, digits) <= length <= total
    && Digits(total - HeaderEnd(pos, sws, digits)) == digits
  }

  /** Some choice is consistent. */
  ghost predicate Countable(pos: nat, total: nat, length: nat) {
    exists s, d {:trigger Solves(pos, total, length, s, d)} :: 1 <= s <= 2 && 1 <= d <= Digits(total) && Solves(pos, total, length, s, d)
  }

  /** With one space, from some digit count on the number becomes too short; right there it either fits, or two spaces do. */
  lemma {:induction false} FixedPoint(pos: nat, total: nat, length: nat, d: nat) returns (sws: nat, digits: nat)
    requires length <= total && HeaderEnd(pos, 2, Digits(total)) <= length && 1 <= d <= Digits(total)
    requires Digits(total - HeaderEnd(pos, 1, d)) >= d
    ensures 1 <= sws <= 2 && 1 <= digits <= Digits(total) && Solves(pos, total, length, sws, digits)
    decreases Digits(total) - d
  {
    hide Digits;
    var b := total - HeaderEnd(pos, 1, d);
    if Digits(b) == d {
      return 1, d;
    }
    assert d < Digits(total) by { DigitsMonotone(b, total); }
    DigitsStep(b);
    if Digits(b - 1) >= d + 1 {
      sws, digits := FixedPoint(pos, total, length, d + 1);
    } else {
      assert total - HeaderEnd(pos, 2, d) == b - 1 && Digits(b - 1) == d;
      return 2, d;
    }
  }

  lemma Solvable(pos: nat, total: nat, length: nat) returns (sws: nat, digits: nat)
    requires length <= total && HeaderEnd(pos, 2, Digits(total)) <= length
    ensures 1 <= sws <= 2 && 1 <= digits <= Digits(total) && Solves(pos, total, length, sws, digits)
  {
    sws, digits := FixedPoint(pos, total, length, 1);
  }

  // ----- Text

  function Ascii(s: string): (b: seq<byte>)
    ensures |b| == |s|
  {
    seq(|s|, i requires 0 <= i < |s| => s[i] as int % 256)
  }

  const CRLF: seq<byte> := [13, 10]

  function Decimal(value: nat): (b: seq<byte>)
    ensures |b| == Digits(value)
  {
    if value < 10 then [48 + value] else Decimal(value / 10) + [48 + value % 10]
  }

  function Value(b: seq<byte>): int {
    if b == [] then 0 else 10 * Value(b[..|b| - 1]) + (b[|b| - 1] as int - 48)
  }

  lemma {:induction false} DecimalValue(value: nat)
    ensures Value(Decimal(value)) == value
  {
    if value < 10 {
      assert Decimal(value)[..0] == [];
    } else {
      DecimalValue(value / 10);
      assert Decimal(value)[..|Decimal(value)| - 1] == Decimal(value / 10);
    }
  }

  function HexDigit(d: nat): byte
    requires d < 16
  {
    if d < 10 then 48 + d else 87 + d
  }

  /** `%08x` */
  function Hex(value: nat, width: nat): (b: seq<byte>)
    ensures |b| == width
  {
    if width == 0 then [] else Hex(value / 16, width - 1) + [HexDigit(value % 16)]
  }

  const STATUS: seq<string> := ["100 Trying", "180 Ringing", "200 OK"]
  const HOSTS: seq<string> := ["sip.example.com", "pbx.example.net", "voip.example.org"]
  const METHODS: seq<string> := ["INVITE", "OPTIONS", "REGISTER"]

  function StatusLine(seed: nat, k: nat): seq<byte> {
    Ascii("SIP/2.0 ") + Ascii(STATUS[(Drawn(seed, 0) % 3 + k) % 3]) + CRLF
  }

  /** The five mandatory header lines. */
  function Headers(seed: nat): (lines: seq<seq<byte>>)
    ensures |lines| == 5
  {
    var host := Ascii(HOSTS[Drawn(seed, 1) % 3]);
    [ Ascii("Via: SIP/2.0/UDP ") + host + Ascii(":5060;branch=z9hG4bK") + Hex(Drawn(seed, 3), 8) + Ascii(";rport") + CRLF,
      Ascii("From: <sip:caller@") + host + Ascii(">;tag=") + Hex(Drawn(seed, 4), 8) + CRLF,
      Ascii("To: <sip:callee@") + host + Ascii(">;tag=") + Hex(Drawn(seed, 5), 8) + CRLF,
      Ascii("Call-ID: ") + Hex(Drawn(seed, 6), 8) + Ascii("@") + host + CRLF,
      Ascii("CSeq: ") + Decimal(1 + Drawn(seed, 7) % 100000) + Ascii(" ") + Ascii(METHODS[Drawn(seed, 2) % 3]) + CRLF ]
  }

  function ContentLine(sws: nat, body: nat): (line: seq<byte>)
    requires sws == 1 || sws == 2
    ensures |line| == 15 + sws + Digits(body) + 2
  {
    Ascii("Content-Length:") + (if sws == 1 then Ascii(" ") else Ascii("  ")) + Decimal(body) + CRLF
  }

  /** The first status line, in the order tried, that leaves room for the closing blank line. */
  function FirstFit(seed: nat, k: nat, length: nat): (r: nat)
    ensures k <= 3 ==> r <= 3
    decreases 3 - k
  {
    if k >= 3 || |StatusLine(seed, k)| + 2 <= length then k else FirstFit(seed, k + 1, length)
  }

  lemma NothingFits(seed: nat)
    ensures FirstFit(seed, 0, 0) == 3
  {
    hide StatusLine;
    assert FirstFit(seed, 2, 0) == FirstFit(seed, 3, 0) == 3;
  }

  /** Everything before Content-Length. */
  function Head(seed: nat, k: nat): seq<byte> {
    StatusLine(seed, k) + Concat(Headers(seed))
  }

  /** A status line and all mandatory headers fit, with the closing blank line. */
  predicate AllMandatory(seed: nat, length: nat) {
    FirstFit(seed, 0, length) < 3 && |Head(seed, FirstFit(seed, 0, length))| + 2 <= length
  }

  /** The header block is complete, and its Content-Length counts the bytes from there to the end of the datagram. */
  ghost predicate Complete(b: seq<byte>, head: seq<byte>) {
    exists sws, body {:trigger ContentLine(sws, body)} ::
      && 1 <= sws <= 2 && body >= 0
      && Has(b, 0, head + ContentLine(sws, body) + CRLF)
      && |head + ContentLine(sws, body) + CRLF| + body == |b|
  }

  // ----- Writing

  /** Writes a line if it and the closing blank line still fit. */
  method PutLine(buf: array<byte>, length: nat, pos: nat, line: seq<byte>, ghost text: seq<byte>) returns (pos': nat, ok: bool)
    requires pos <= length <= buf.Length && pos == |text| && Has(buf[..], 0, text)
    modifies buf
    ensures ok <==> pos + |line| + 2 <= length
    ensures ok ==> pos' == pos + |line| && Has(buf[..], 0, text + line) && SameOutside(old(buf[..]), buf[..], pos, pos')
    ensures !ok ==> pos' == pos && buf[..] == old(buf[..])
  {
    if pos + |line| + 2 <= length {
      Copy(buf, pos, line);
      HasAppend(old(buf[..]), buf[..], text, line);
      return pos + |line|, true;
    }
    return pos, false;
  }

  lemma HasAppend(a: seq<byte>, b: seq<byte>, text: seq<byte>, line: seq<byte>)
    requires Has(a, 0, text) && SameOutside(a, b, |text|, |text| + |line|) && Has(b, |text|, line)
    ensures Has(b, 0, text + line)
  {
  }

  /** Tries the status lines in turn. */
  method PutStatus(buf: array<byte>, length: nat, seed: nat) returns (pos: nat, written: bool)
    requires length <= buf.Length
    modifies buf
    ensures SameOutside(old(buf[..]), buf[..], 0, length)
    ensures written <==> FirstFit(seed, 0, length) < 3
    ensures written ==> pos == |StatusLine(seed, FirstFit(seed, 0, length))| && pos + 2 <= length && Has(buf[..], 0, StatusLine(seed, FirstFit(seed, 0, length)))
  {
    hide StatusLine;
    var k := 0;
    while k < 3
      invariant 0 <= k <= 3 && FirstFit(seed, 0, length) == FirstFit(seed, k, length) && buf[..] == old(buf[..])
    {
      pos, written := PutLine(buf, length, 0, StatusLine(seed, k), []);
      if written {
        assert [] + StatusLine(seed, k) == StatusLine(seed, k);
        return;
      }
      k := k + 1;
    }
    return 0, false;
  }

  /** Writes the mandatory headers, up to the first that does not fit. */
  method PutHeaders(buf: array<byte>, length: nat, start: nat, seed: nat, ghost status: seq<byte>)
    returns (pos: nat, all: bool, ghost written: nat)
    requires start <= length <= buf.Length && start == |status| && start + 2 <= length && Has(buf[..], 0, status)
    modifies buf
    ensures SameOutside(old(buf[..]), buf[..], 0, length) && start <= pos && pos + 2 <= length
    ensures all <==> |status + Concat(Headers(seed))| + 2 <= length
    ensures !all ==> written < 5 && pos == |status + Concat(Headers(seed)[..written])|
    ensures all ==> pos == |status + Concat(Headers(seed))| && Has(buf[..], 0, status + Concat(Headers(seed)))
  {
    hide Headers, Has, SameOutside;
    var lines := Headers(seed);
    pos := start;
    assert status + Concat(lines[..0]) == status;
    Unchanged(buf[..], 0, length);
    for i := 0 to 5
      invariant pos == |status + Concat(lines[..i])| && start <= pos && pos + 2 <= length && Has(buf[..], 0, status + Concat(lines[..i]))
      invariant SameOutside(old(buf[..]), buf[..], 0, length)
    {
      ghost var before := buf[..];
      ConcatStep(lines, i);
      var ok;
      pos, ok := PutLine(buf, length, pos, lines[i], status + Concat(lines[..i]));
      if !ok {
        ConcatGrows(lines, i + 1);
        return pos, false, i;
      }
      Widen(before, buf[..], |status + Concat(lines[..i])|, pos, 0, length);
      SameOutsideChain(old(buf[..]), before, buf[..], 0, length);
      assert status + Concat(lines[..i + 1]) == status + Concat(lines[..i]) + lines[i];
    }
    assert lines[..5] == lines;
    all, written := true, 5;
  }

  lemma ConcatStep(lines: seq<seq<byte>>, i: nat)
    requires i < |lines|
    ensures Concat(lines[..i + 1]) == Concat(lines[..i]) + lines[i]
  {
    assert lines[..i + 1] == lines[..i] + [lines[i]];
    ConcatAppend(lines[..i], lines[i]);
  }

  lemma {:induction false} ConcatGrows(lines: seq<seq<byte>>, i: nat)
    requires i <= |lines|
    ensures |Concat(lines[..i])| <= |Concat(lines)|
    decreases |lines| - i
  {
    if i == |lines| {
      assert lines[..i] == lines;
    } else {
      ConcatStep(lines, i);
      ConcatGrows(lines, i + 1);
    }
  }

  /** The first consistent choice of spaces and digits; no spaces if there is none. */
  method SolveContentLength(pos: nat, total: nat, length: nat) returns (sws: nat, digits: nat)
    requires length <= total
    ensures sws == 0 || (sws <= 2 && Solves(pos, total, length, sws, digits))
    ensures sws == 0 <==> !Countable(pos, total, length)
  {
    hide Digits;
    var most := DecimalDigits(total);
    sws, digits := 1, 1;
    while sws <= 2
      invariant 1 <= sws <= 3
      invariant forall s, d :: 1 <= s < sws && 1 <= d <= most ==> !Solves(pos, total, length, s, d)
    {
      digits := 1;
      while digits <= most
        invariant 1 <= digits <= most + 1
        invariant forall d :: 1 <= d < digits ==> !Solves(pos, total, length, sws, d)
      {
        var headerEnd := HeaderEnd(pos, sws, digits);
        if headerEnd > length {
          break;
        }
        var needed := DecimalDigits(total - headerEnd);
        if needed == digits {
          return;
        }
        digits := digits + 1;
      }
      sws := sws + 1;
    }
    sws := 0;
  }

  /** No status line fits: part of one, blanks, and a line end. */
  method PutFragment(buf: array<byte>, length: nat)
    requires 0 < length <= buf.Length
    modifies buf
    ensures SameOutside(old(buf[..]), buf[..], 0, length)
  {
    var frag := Ascii("SIP/2.0 100 Trying") + CRLF;
    var take := if |frag| > length then length else |frag|;
    Copy(buf, 0, frag[..take]);
    Fill(buf, take, length, 32);
    if length >= 2 {
      Copy(buf, length - 2, CRLF);
    }
  }

  /** The closing blank line, and blanks up to the packet. */
  method Close(buf: array<byte>, length: nat, pos: nat, ghost text: seq<byte>)
    requires pos + 2 <= length <= buf.Length && pos == |text| && Has(buf[..], 0, text)
    modifies buf
    ensures SameOutside(old(buf[..]), buf[..], 0, length) && Has(buf[..], 0, text + CRLF) && buf[pos] == 13
  {
    ghost var before := buf[..];
    Copy(buf, pos, CRLF);
    HasAppend(before, buf[..], text, CRLF);
    ghost var closed := buf[..];
    Fill(buf, pos + 2, length, 32);
    HasKept(closed, buf[..], pos + 2, length, 0, text + CRLF);
    assert buf[..][0 + pos] == (text + CRLF)[pos];
  }

  lemma LineStarts(seed: nat, i: nat)
    requires i < 5
    ensures |Headers(seed)[i]| > 0 && Headers(seed)[i][0] != 13
  {
    hide Hex, Decimal, Drawn;
    assert Headers(seed)[i][0] == ['V', 'F', 'T', 'C', 'C'][i] as int % 256;
  }

  /** A blank line where a header line should be. */
  lemma CutShort(b: seq<byte>, seed: nat, status: seq<byte>, i: nat)
    requires i < 5
    requires var p := |status + Concat(Headers(seed)[..i])|; p < |b| && b[p] == 13
    ensures !Complete(b, status + Concat(Headers(seed)))
  {
    hide Headers, Concat, ContentLine;
    var lines := Headers(seed);
    var p, head := |status + Concat(lines[..i])|, status + Concat(lines);
    ConcatJoin(lines[..i], lines[i..]);
    assert lines[..i] + lines[i..] == lines;
    LineStarts(seed, i);
    assert head[p] == lines[i][0] by { ConcatFirst(lines[i..]); }
    forall sws, body: nat | 1 <= sws <= 2 ensures !Has(b, 0, head + ContentLine(sws, body) + CRLF) {
      assert (head + ContentLine(sws, body) + CRLF)[p] == head[p];
    }
  }

  lemma ConcatFirst(lines: seq<seq<byte>>)
    requires |lines| > 0 && |lines[0]| > 0
    ensures |Concat(lines)| > 0 && Concat(lines)[0] == lines[0][0]
  {
  }

  /** A blank line where Content-Length should be. */
  lemma NotCounted(b: seq<byte>, head: seq<byte>)
    requires |head| < |b| && b[|head|] == 13
    ensures !Complete(b, head)
  {
    hide Decimal;
    forall sws, body: nat | 1 <= sws <= 2 ensures !Has(b, 0, head + ContentLine(sws, body) + CRLF) {
      assert (head + ContentLine(sws, body) + CRLF)[|head|] == ContentLine(sws, body)[0] == 'C' as int % 256;
    }
  }

  /** The header block is completed exactly if all mandatory headers fit and a consistent Content-Length does; then
    it counts the bytes behind the blank line, to the end of the datagram. 15 + 2 + digits + 4 bytes are enough. */
  method WriteSip(buf: array<byte>, padding: nat, seed: nat)
    requires padding <= buf.Length
    modifies buf
    ensures SameOutside(old(buf[..]), buf[..], 0, padding)
    ensures AllMandatory(seed, padding) ==>
      var head := Head(seed, FirstFit(seed, 0, padding));
      HeaderEnd(|head|, 2, Digits(buf.Length)) <= padding ==> Complete(buf[..], head)
    ensures FirstFit(seed, 0, padding) < 3 ==>
      var head := Head(seed, FirstFit(seed, 0, padding));
      Complete(buf[..], head) <==> AllMandatory(seed, padding) && Countable(|head|, buf.Length, padding)
  {
    hide Headers, StatusLine, Digits, FirstFit, Has, SameOutside, Concat, Complete, Solves, Countable;
    Unchanged(buf[..], 0, padding);
    if padding == 0 {
      NothingFits(seed);
      return;
    }
    var pos, written := PutStatus(buf, padding, seed);
    ghost var b1 := buf[..];
    if !written {
      PutFragment(buf, padding);
      SameOutsideChain(old(buf[..]), b1, buf[..], 0, padding);
      return;
    }
    ghost var status := StatusLine(seed, FirstFit(seed, 0, padding));
    var all;
    ghost var count;
    pos, all, count := PutHeaders(buf, padding, pos, seed, status);
    ghost var b2 := buf[..];
    SameOutsideChain(old(buf[..]), b1, b2, 0, padding);
    if all {
      PutContentLength(buf, padding, pos, status + Concat(Headers(seed)));
    } else {
      Finish(buf, padding, pos);
      CutShort(buf[..], seed, status, count);
    }
    SameOutsideChain(old(buf[..]), b2, buf[..], 0, padding);
  }

  /** The blank line and blanks, behind an incomplete header block. */
  method Finish(buf: array<byte>, length: nat, pos: nat)
    requires pos + 2 <= length <= buf.Length
    modifies buf
    ensures SameOutside(old(buf[..]), buf[..], 0, length) && buf[pos] == 13
  {
    ghost var text := buf[..pos];
    Close(buf, length, pos, text);
  }

  method PutContentLength(buf: array<byte>, length: nat, start: nat, ghost head: seq<byte>)
    requires start + 2 <= length <= buf.Length && start == |head| && Has(buf[..], 0, head)
    modifies buf
    ensures SameOutside(old(buf[..]), buf[..], 0, length)
    ensures Complete(buf[..], head) <==> Countable(|head|, buf.Length, length)
    ensures HeaderEnd(|head|, 2, Digits(buf.Length)) <= length ==> Countable(|head|, buf.Length, length)
  {
    hide Digits, Has, SameOutside, Complete, Countable;
    if HeaderEnd(|head|, 2, Digits(buf.Length)) <= length {
      RoomCounts(|head|, buf.Length, length);
    }
    var pos := start;
    ghost var before := buf[..];
    var sws, digits := SolveContentLength(pos, buf.Length, length);
    if sws == 0 {
      Close(buf, length, pos, head);
      NotCounted(buf[..], head);
      return;
    }
    var body := buf.Length - HeaderEnd(pos, sws, digits);
    var ok;
    pos, ok := PutLine(buf, length, pos, ContentLine(sws, body), head);
    ghost var lined := buf[..];
    Widen(before, lined, start, pos, 0, length);
    Close(buf, length, pos, head + ContentLine(sws, body));
    SameOutsideChain(before, lined, buf[..], 0, length);
    IsComplete(buf[..], head, sws, body);
  }

  lemma IsComplete(b: seq<byte>, head: seq<byte>, sws: nat, body: nat)
    requires 1 <= sws <= 2 && Has(b, 0, head + ContentLine(sws, body) + CRLF) && |head + ContentLine(sws, body) + CRLF| + body == |b|
    ensures Complete(b, head)
  {
  }

  /** Where there is room enough, a consistent choice exists. */
  lemma RoomCounts(pos: nat, total: nat, length: nat)
    requires length <= total && HeaderEnd(pos, 2, Digits(total)) <= length
    ensures Countable(pos, total, length)
  {
    hide Digits, Solves;
    var s, d := Solvable(pos, total, length);
  }
}
