/** DNS responses (RFC 1035, RFC 6891) written in front of a packet by device/obf_imitate.go. */
module ImitateDns {
  import opened Wrappers
  import opened Bytes
  import opened Imitation

  const OPT_MIN: nat := 32

  // ----- Reading a message

  /** The end of a domain name: labels up to the root label, or up to a compression pointer. */
  function NameEnd(b: seq<byte>, at: nat): Option<nat>
    decreases |b| - at
  {
    if at >= |b| then None
    else if b[at] == 0 then Some(at + 1)
    else if b[at] < 64 then NameEnd(b, at + 1 + b[at])
    else if b[at] >= 192 then Some(at + 2)
    else None
  }

  function QuestionEnd(b: seq<byte>, at: nat): Option<nat> {
    var name := NameEnd(b, at);
    if name.None? || name.value + 4 > |b| then None else Some(name.value + 4)
  }

  function RecordEnd(b: seq<byte>, at: nat): Option<nat> {
    var name := NameEnd(b, at);
    if name.None? || name.value + 10 > |b| then None
    else
      var end := name.value + 10 + U16(b, name.value + 8);
      if end > |b| then None else Some(end)
  }

  function QuestionsEnd(b: seq<byte>, at: nat, count: nat): Option<nat>
    decreases count
  {
    if count == 0 then Some(at)
    else
      var next := QuestionEnd(b, at);
      if next.None? then None else QuestionsEnd(b, next.value, count - 1)
  }

  function RecordsEnd(b: seq<byte>, at: nat, count: nat): Option<nat>
    decreases count
  {
    if count == 0 then Some(at)
    else
      var next := RecordEnd(b, at);
      if next.None? then None else RecordsEnd(b, next.value, count - 1)
  }

  /** Where the last section of a message ends. */
  function MessageEnd(b: seq<byte>): Option<nat> {
    if |b| < 12 then None
    else
      var questions := QuestionsEnd(b, 12, U16(b, 4));
      if questions.None? then None
      else RecordsEnd(b, questions.value, U16(b, 6) + U16(b, 8) + U16(b, 10))
  }

  /** The options of an OPT record fill it from `at` to exactly `end` (section 6.1.2 of RFC 6891). */
  predicate OptionsFill(b: seq<byte>, at: nat, end: nat)
    requires end <= |b|
    decreases end - at
  {
    at == end || (at + 4 <= end && at + 4 + U16(b, at + 2) <= end && OptionsFill(b, at + 4 + U16(b, at + 2), end))
  }

  // ----- Writing one

  function ClampU16(v: int): (r: nat)
    ensures r < TWO16 && (0 <= v < TWO16 <==> r == v)
  {
    if v < 0 then 0 else if v > 0xFFFF then 0xFFFF else v
  }

  /** A header, a question for the root name, and a root-named record up to its data. */
  function Fixed(txid: (byte, byte), qdcount: byte, ancount: byte, arcount: byte, kind: byte, cls: (byte, byte), ttl: byte, rdlength: nat): (s: seq<byte>)
    requires rdlength < TWO16
    ensures |s| == 28
  {
    [txid.0, txid.1, 0x81, 0x80, 0, qdcount, 0, ancount, 0, 0, 0, arcount,
     0, 0, 1, 0, 1,
     0, 0, kind, cls.0, cls.1, 0, 0, 0, ttl, rdlength / 256, rdlength % 256]
  }

  /** The first 28 bytes: header, root question, record. */
  ghost predicate Shaped(b: seq<byte>, ancount: byte, arcount: byte, rdlength: nat) {
    && |b| >= 28
    && b[4] == 0 && b[5] == 1 && b[6] == 0 && b[7] == ancount && b[8] == 0 && b[9] == 0 && b[10] == 0 && b[11] == arcount
    && b[12] == 0 && b[17] == 0 && U16(b, 26) == rdlength
  }

  lemma OneQuestion(b: seq<byte>)
    requires |b| >= 17 && b[12] == 0
    ensures QuestionsEnd(b, 12, 1) == Some(17)
  {
    assert QuestionEnd(b, 12) == Some(17);
    hide QuestionEnd;
    assert QuestionsEnd(b, 17, 0) == Some(17);
  }

  lemma OneRecord(b: seq<byte>, rdlength: nat)
    requires |b| >= 28 && b[17] == 0 && U16(b, 26) == rdlength
    ensures RecordsEnd(b, 17, 1) == if 28 + rdlength > |b| then None else Some(28 + rdlength)
  {
    assert RecordEnd(b, 17) == if 28 + rdlength > |b| then None else Some(28 + rdlength);
    hide RecordEnd;
    if 28 + rdlength <= |b| {
      assert RecordsEnd(b, 28 + rdlength, 0) == Some(28 + rdlength);
    }
  }

  /** As much of the transaction identifier as fits into the first `padding` bytes. */
  ghost predicate Identified(b: seq<byte>, padding: nat, txid: (byte, byte))
    requires padding <= |b|
  {
    (padding > 0 ==> b[0] == txid.0) && (padding > 1 ==> b[1] == txid.1)
  }

  /** With one record, the message ends where the data of that record ends. */
  lemma ShapedEnd(b: seq<byte>, ancount: byte, arcount: byte, rdlength: nat)
    requires Shaped(b, ancount, arcount, rdlength) && ancount + arcount as int == 1
    ensures MessageEnd(b) == if 28 + rdlength > |b| then None else Some(28 + rdlength)
  {
    hide QuestionsEnd, RecordsEnd;
    assert U16(b, 4) == 1 && U16(b, 6) + U16(b, 8) + U16(b, 10) == 1;
    OneQuestion(b);
    OneRecord(b, rdlength);
  }

  /** A message is written into the first `padding` bytes; the record data runs on over the packet itself. With
    room for a record, the sections end exactly with the datagram, if and only if its length can be expressed. */
  method WriteDnsMsg(buf: array<byte>, padding: nat, txid: (byte, byte))
    requires padding <= buf.Length
    modifies buf
    ensures SameOutside(old(buf[..]), buf[..], 0, padding)
    ensures Identified(buf[..], padding, txid)
    ensures padding >= 28 ==> (MessageEnd(buf[..]) == Some(buf.Length) <==> buf.Length - 28 <= 0xFFFF)
    ensures padding >= OPT_MIN && buf.Length - 28 <= 0xFFFF ==> OptionsFill(buf[..], 28, buf.Length)
  {
    hide MessageEnd, SameOutside, OptionsFill;
    if padding < OPT_MIN {
      WriteDnsNull(buf, padding, txid);
      return;
    }
    WriteDnsOptResponse(buf, padding, txid);
  }

  lemma FixedShaped(b: seq<byte>, txid: (byte, byte), ancount: byte, arcount: byte, kind: byte, cls: (byte, byte), ttl: byte, rdlength: nat)
    requires rdlength < TWO16 && Has(b, 0, Fixed(txid, 1, ancount, arcount, kind, cls, ttl, rdlength))
    ensures Shaped(b, ancount, arcount, rdlength)
  {
    var f := Fixed(txid, 1, ancount, arcount, kind, cls, ttl, rdlength);
    assert b[0 + 4] == f[4] && b[0 + 5] == f[5] && b[0 + 6] == f[6] && b[0 + 7] == f[7] && b[0 + 8] == f[8] && b[0 + 9] == f[9];
    assert b[0 + 10] == f[10] && b[0 + 11] == f[11] && b[0 + 12] == f[12] && b[0 + 17] == f[17] && b[0 + 26] == f[26] && b[0 + 27] == f[27];
  }

  lemma FixedIdentified(b: seq<byte>, txid: (byte, byte), qdcount: byte, ancount: byte, arcount: byte, kind: byte, cls: (byte, byte), ttl: byte,
                        rdlength: nat, n: nat)
    requires rdlength < TWO16 && n <= 28 && Has(b, 0, Fixed(txid, qdcount, ancount, arcount, kind, cls, ttl, rdlength)[..n])
    ensures (n > 0 ==> |b| > 0 && b[0] == txid.0) && (n > 1 ==> |b| > 1 && b[1] == txid.1)
  {
    var f := Fixed(txid, qdcount, ancount, arcount, kind, cls, ttl, rdlength)[..n];
    assert n > 0 ==> b[0 + 0] == f[0];
    assert n > 1 ==> b[0 + 1] == f[1];
  }

  /** The padding option of the OPT record reaches to the end of the datagram. */
  method WriteDnsOptResponse(buf: array<byte>, padding: nat, txid: (byte, byte))
    requires OPT_MIN <= padding <= buf.Length
    modifies buf
    ensures SameOutside(old(buf[..]), buf[..], 0, padding)
    ensures Identified(buf[..], padding, txid)
    ensures MessageEnd(buf[..]) == Some(buf.Length) <==> buf.Length - 28 <= 0xFFFF
    ensures buf.Length - 28 <= 0xFFFF ==> OptionsFill(buf[..], 28, buf.Length)
  {
    hide MessageEnd, Fixed;
    var rdlength, optLen := ClampU16(buf.Length - 28), ClampU16(buf.Length - 32);
    var fixed := Fixed(txid, 1, 0, 1, 0x29, (0x04, 0xD0), 0, rdlength);
    var option := [0xFD, 0xE9] + Be16(optLen);
    Copy(buf, 0, fixed + option);
    ghost var copied := buf[..];
    Fill(buf, 32, padding, 0);
    HasKept(copied, buf[..], 32, padding, 0, fixed + option);
    HasPrefix(buf[..], 0, fixed, option);
    assert fixed[..28] == fixed;
    HasPrefix(buf[..], 28, [0xFD, 0xE9], Be16(optLen));
    HasU16(buf[..], 30, optLen);
    FixedIdentified(buf[..], txid, 1, 0, 1, 0x29, (0x04, 0xD0), 0, rdlength, 28);
    FixedShaped(buf[..], txid, 0, 1, 0x29, (0x04, 0xD0), 0, rdlength);
    ShapedEnd(buf[..], 0, 1, rdlength);
  }

  /** Too little room for an option: a NULL record, or only the question, or only (part of) the header. */
  method WriteDnsNull(buf: array<byte>, padding: nat, txid: (byte, byte))
    requires padding <= buf.Length
    modifies buf
    ensures SameOutside(old(buf[..]), buf[..], 0, padding)
    ensures Identified(buf[..], padding, txid)
    ensures padding >= 28 ==> (MessageEnd(buf[..]) == Some(buf.Length) <==> buf.Length - 28 <= 0xFFFF)
  {
    hide MessageEnd, Fixed;
    if padding == 0 {
      return;
    }
    var qdcount := if padding >= 17 then 1 else 0;
    var ancount := if padding >= 28 then 1 else 0;
    var rdlength := ClampU16(buf.Length - 28);
    var fixed := Fixed(txid, qdcount, ancount, 0, 0x0a, (0, 1), 60, rdlength);
    var advertised := if padding >= 28 then 28 else if padding >= 17 then 17 else 12;
    var copyLen := if padding < advertised then padding else advertised;
    Copy(buf, 0, fixed[..copyLen]);
    ghost var copied := buf[..];
    Fill(buf, copyLen, padding, 0);
    HasKept(copied, buf[..], copyLen, padding, 0, fixed[..copyLen]);
    FixedIdentified(buf[..], txid, qdcount, ancount, 0, 0x0a, (0, 1), 60, rdlength, copyLen);
    if padding >= 28 {
      assert fixed[..copyLen] == fixed;
      FixedShaped(buf[..], txid, 1, 0, 0x0a, (0, 1), 60, rdlength);
      ShapedEnd(buf[..], 1, 0, rdlength);
    }
  }

  /** The first two bytes of a packet, zero where it is shorter. */
  function FirstTwo(payload: seq<byte>): (byte, byte) {
    (if |payload| > 0 then payload[0] else 0, if |payload| > 1 then payload[1] else 0)
  }

  /** The transaction identifier comes from the packet behind the padding. */
  method WriteDns(buf: array<byte>, padding: nat)
    requires padding <= buf.Length
    modifies buf
    ensures SameOutside(old(buf[..]), buf[..], 0, padding)
    ensures Identified(buf[..], padding, FirstTwo(old(buf[padding..])))
    ensures padding >= 28 ==> (MessageEnd(buf[..]) == Some(buf.Length) <==> buf.Length - 28 <= 0xFFFF)
    ensures padding >= OPT_MIN && buf.Length - 28 <= 0xFFFF ==> OptionsFill(buf[..], 28, buf.Length)
  {
    hide MessageEnd, OptionsFill;
    if padding == 0 {
      return;
    }
    var first: byte := if padding < buf.Length then buf[padding] else 0;
    var second: byte := if padding + 1 < buf.Length then buf[padding + 1] else 0;
    WriteDnsMsg(buf, padding, (first, second));
  }

  /** A whole datagram, its transaction identifier taken from the seed. */
  method WriteDnsWhole(buf: array<byte>, seed: nat)
    modifies buf
    ensures Identified(buf[..], buf.Length, (seed / 256 % 256, seed % 256))
    ensures buf.Length >= 28 ==> (MessageEnd(buf[..]) == Some(buf.Length) <==> buf.Length - 28 <= 0xFFFF)
    ensures buf.Length >= OPT_MIN && buf.Length - 28 <= 0xFFFF ==> OptionsFill(buf[..], 28, buf.Length)
  {
    hide MessageEnd, OptionsFill;
    if buf.Length == 0 {
      return;
    }
    WriteDnsMsg(buf, buf.Length, (seed / 256 % 256, seed % 256));
  }
}
