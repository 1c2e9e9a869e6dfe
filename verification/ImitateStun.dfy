/** STUN Binding Success Responses (RFC 5389). */
module ImitateStun {
  import opened Wrappers
  import opened Bytes
  import opened Imitation

  datatype Attr = Attr(kind: nat, length: nat)

  const XOR_MAPPED_ADDRESS: nat := 0x0020
  const SOFTWARE: nat := 0x8022

  /** Attributes are padded to a multiple of 4 (section 15 of RFC 5389). */
  function Padded(n: nat): nat {
    n + (4 - n % 4) % 4
  }

  /** The attributes that fill `b` from `at` to exactly `end`. */
  function Attrs(b: seq<byte>, at: nat, end: nat): Option<seq<Attr>>
    requires end <= |b|
    decreases end - at
  {
    if at == end then Some([])
    else if at + 4 > end then None
    else
      var attr := Attr(U16(b, at), U16(b, at + 2));
      var next := at + 4 + Padded(attr.length);
      if next > end then None
      else
        var rest := Attrs(b, next, end);
        if rest.None? then None else Some([attr] + rest.value)
  }

  /** The attributes parse, and SOFTWARE has fewer than 128 bytes (section 15.10 of RFC 5389). */
  ghost predicate Software(attrs: Option<seq<Attr>>) {
    attrs.Some? && forall a :: a in attrs.value && a.kind == SOFTWARE ==> a.length < 128
  }

  /** A whole STUN message in front of `padding` bytes: its attributes parse to exactly the advertised length. */
  ghost predicate IsStun(b: seq<byte>, padding: nat)
    requires 20 <= padding <= |b|
  {
    && U16(b, 0) == 0x0101 && Has(b, 4, [0x21, 0x12, 0xA4, 0x42])
    && U16(b, 2) % 4 == 0 && U16(b, 2) <= 140 && 20 + U16(b, 2) <= padding
    && Software(Attrs(b, 20, 20 + U16(b, 2)))
    && forall i :: 20 + U16(b, 2) <= i < padding ==> b[i] == 0
  }

  /** The room for attributes, a multiple of 4. */
  function Body(padding: nat): (n: nat)
    ensures n % 4 == 0 && (padding >= 20 ==> n <= padding - 20)
  {
    if padding > 20 then (padding - 20) / 4 * 4 else 0
  }

  function Mapped(body: nat): nat {
    if body >= 12 then 12 else 0
  }

  /** The advertised length. */
  function Written(padding: nat): (n: nat) {
    var body := Body(padding);
    Mapped(body) + if body - Mapped(body) >= 4 then 4 + SoftwareLength(body - Mapped(body)) else 0
  }

  function SoftwareLength(remaining: nat): (n: nat)
    requires remaining >= 4
    ensures n <= 124 && n <= remaining - 4 && (remaining % 4 == 0 ==> n % 4 == 0)
  {
    if remaining - 4 > 124 then 124 else remaining - 4
  }

  /** The attribute layout in `b` from offset 20 on. */
  ghost predicate Laid(b: seq<byte>, body: nat)
    requires 20 + body <= |b|
  {
    && (body >= 12 ==> Has(b, 20, Be16(XOR_MAPPED_ADDRESS) + Be16(8)))
    && (body - Mapped(body) >= 4 ==> Has(b, 20 + Mapped(body), Be16(SOFTWARE) + Be16(SoftwareLength(body - Mapped(body)))))
  }

  lemma HeaderFields(b: seq<byte>, at: nat, kind: nat, length: nat)
    requires kind < TWO16 && length < TWO16 && Has(b, at, Be16(kind) + Be16(length))
    ensures U16(b, at) == kind && U16(b, at + 2) == length
  {
    var s := Be16(kind) + Be16(length);
    assert b[at + 0] == s[0] && b[at + 1] == s[1] && b[at + 2] == s[2] && b[at + 3] == s[3];
  }

  lemma FirstAttr(b: seq<byte>, at: nat, kind: nat, length: nat, end: nat)
    requires kind < TWO16 && length < TWO16 && length % 4 == 0 && Has(b, at, Be16(kind) + Be16(length)) && at + 4 + length <= end <= |b|
    requires Attrs(b, at + 4 + length, end).Some?
    ensures Attrs(b, at, end) == Some([Attr(kind, length)] + Attrs(b, at + 4 + length, end).value)
  {
    HeaderFields(b, at, kind, length);
  }

  lemma LastAttr(b: seq<byte>, at: nat, kind: nat, length: nat, end: nat)
    requires kind < TWO16 && length < TWO16 && length % 4 == 0 && Has(b, at, Be16(kind) + Be16(length)) && at + 4 + length == end <= |b|
    ensures Attrs(b, at, end) == Some([Attr(kind, length)])
  {
    NoAttrs(b, end);
    FirstAttr(b, at, kind, length, end);
    assert [Attr(kind, length)] + [] == [Attr(kind, length)];
  }

  lemma LaidParses(b: seq<byte>, padding: nat)
    requires 20 <= padding <= |b| && Laid(b, Body(padding))
    ensures var w := Written(padding); w % 4 == 0 && w <= 140 && 20 + w <= padding && Software(Attrs(b, 20, 20 + w))
  {
    hide Has, Be16, Attrs;
    var body := Body(padding);
    hide Body;
    var end := 20 + Written(padding);
    NoAttrs(b, end);
    if body - Mapped(body) >= 4 {
      LastAttr(b, 20 + Mapped(body), SOFTWARE, SoftwareLength(body - Mapped(body)), end);
    }
    if body >= 12 {
      FirstAttr(b, 20, XOR_MAPPED_ADDRESS, 8, end);
    }
  }

  lemma NoAttrs(b: seq<byte>, end: nat)
    requires end <= |b|
    ensures Attrs(b, end, end) == Some([])
  {
  }

  /** What the attributes depend on. */
  lemma LaidKept(a: seq<byte>, b: seq<byte>, padding: nat)
    requires 20 <= padding <= |a| == |b| && Laid(a, Body(padding))
    requires forall i :: 20 <= i < 20 + Written(padding) && i < |a| ==> b[i] == a[i]
    ensures Laid(b, Body(padding))
  {
  }

  lemma StunComplete(b: seq<byte>, padding: nat, txn: seq<byte>)
    requires 20 <= padding <= |b| && Laid(b, Body(padding)) && Written(padding) < TWO16
    requires Has(b, 0, Be16(0x0101) + (Be16(Written(padding)) + ([0x21, 0x12, 0xA4, 0x42] + txn)))
    requires forall i :: 20 + Written(padding) <= i < padding ==> b[i] == 0
    ensures IsStun(b, padding)
  {
    hide Laid, Attrs, Written, Has, Be16;
    LaidParses(b, padding);
    HasPrefix(b, 0, Be16(0x0101), Be16(Written(padding)) + ([0x21, 0x12, 0xA4, 0x42] + txn));
    HasPrefix(b, 2, Be16(Written(padding)), [0x21, 0x12, 0xA4, 0x42] + txn);
    HasPrefix(b, 4, [0x21, 0x12, 0xA4, 0x42], txn);
    HasU16(b, 0, 0x0101);
    HasU16(b, 2, Written(padding));
  }

  lemma WrittenFits(padding: nat)
    ensures Written(padding) <= 140 && (padding >= 20 ==> 20 + Written(padding) <= padding) && (padding <= 20 ==> Written(padding) == 0)
  {
  }

  /** Writes the message into the first `padding` bytes, truncated if that is less than its header. */
  method WriteStun(buf: array<byte>, padding: nat, seed: nat)
    requires padding <= buf.Length && seed < TWO32
    modifies buf
    ensures SameOutside(old(buf[..]), buf[..], 0, padding)
    ensures padding >= 20 ==> IsStun(buf[..], padding)
  {
    hide Attrs, LcgStep, Has, Laid, IsStun, Written, Be16, Be32;
    if padding == 0 {
      return;
    }
    var state: nat := seed;
    var txn: seq<byte> := [];
    for i := 0 to 3
      invariant |txn| == 4 * i && state < TWO32 && buf[..] == old(buf[..])
    {
      txn := txn + Be32(state);
      state := LcgStep(state);
    }
    WrittenFits(padding);
    var written := WriteAttributes(buf, padding, state);
    ghost var attributed := buf[..];
    var header := Be16(0x0101) + (Be16(written) + ([0x21, 0x12, 0xA4, 0x42] + txn));
    var copyLen := if padding > 20 then 20 else padding;
    Copy(buf, 0, header[..copyLen]);
    if 20 + written < padding {
      ghost var headed := buf[..];
      Fill(buf, 20 + written, padding, 0);
      HasKept(headed, buf[..], 20 + written, padding, 0, header[..copyLen]);
    }
    if padding >= 20 {
      assert header[..copyLen] == header;
      LaidKept(attributed, buf[..], padding);
      StunComplete(buf[..], padding, txn);
    }
  }

  /** XOR-MAPPED-ADDRESS and SOFTWARE, as far as there is room. */
  method WriteAttributes(buf: array<byte>, padding: nat, seed: nat) returns (written: nat)
    requires padding <= buf.Length && seed < TWO32
    modifies buf
    ensures written == Written(padding) && SameOutside(old(buf[..]), buf[..], 20, 20 + written)
    ensures padding >= 20 ==> Laid(buf[..], Body(padding))
  {
    hide LcgStep, Has, Be16, Be32;
    var state := seed;
    var body := Body(padding);
    written := 0;
    if body - written >= 12 {
      var port, addr := state / TWO16, LcgStep(state);
      state := LcgStep(addr);
      var value := [0x00, 0x01, XorByte(port / 256, 0x21), XorByte(port % 256, 0x12)] + XorCookie(Be32(addr));
      Copy(buf, 20 + written, (Be16(XOR_MAPPED_ADDRESS) + Be16(8)) + value);
      HasPrefix(buf[..], 20, Be16(XOR_MAPPED_ADDRESS) + Be16(8), value);
      written := written + 12;
    }
    var remaining := body - written;
    if remaining >= 4 {
      ghost var mapped := buf[..];
      WriteSoftware(buf, 20 + written, remaining, state);
      if body >= 12 {
        HasKept(mapped, buf[..], 20 + written, 24 + written + SoftwareLength(remaining), 20, Be16(XOR_MAPPED_ADDRESS) + Be16(8));
      }
      written := written + 4 + SoftwareLength(remaining);
    }
  }

  function XorCookie(b: seq<byte>): (r: seq<byte>)
    requires |b| == 4
    ensures |r| == 4
  {
    [XorByte(b[0], 0x21), XorByte(b[1], 0x12), XorByte(b[2], 0xA4), XorByte(b[3], 0x42)]
  }

  /** SOFTWARE with printable text. */
  method WriteSoftware(buf: array<byte>, off: nat, remaining: nat, seed: nat)
    requires remaining >= 4 && off + remaining <= buf.Length
    modifies buf
    ensures SameOutside(old(buf[..]), buf[..], off, off + 4 + SoftwareLength(remaining))
    ensures Has(buf[..], off, Be16(SOFTWARE) + Be16(SoftwareLength(remaining)))
    ensures forall i :: off + 4 <= i < off + 4 + SoftwareLength(remaining) ==> 0x20 <= buf[i] < 0x7F
  {
    hide LcgStep, Be16;
    var state, vlen := seed, SoftwareLength(remaining);
    Copy(buf, off, Be16(SOFTWARE) + Be16(vlen));
    for j := 0 to vlen
      invariant SameOutside(old(buf[..]), buf[..], off, off + 4 + vlen) && Has(buf[..], off, Be16(SOFTWARE) + Be16(vlen))
      invariant forall i :: off + 4 <= i < off + 4 + j ==> 0x20 <= buf[i] < 0x7F
    {
      buf[off + 4 + j] := 0x20 + state % 0x5F;
      state := LcgStep(state);
    }
  }
}
