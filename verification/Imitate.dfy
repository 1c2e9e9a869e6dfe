/** The entry points of device/obf_imitate.go: filler that looks like another protocol. */
module Imitate {
  import opened Bytes
  import opened Imitation
  import opened Wrappers
  import ImitateStun
  import ImitateDns
  import ImitateSip

  datatype Proto = NoProto | Quic | Dns | Stun | Sip

  /** FNV-1a over the first `n` bytes. */
  function Fnv1a(payload: seq<byte>, n: nat): (state: nat)
    requires n <= |payload|
    ensures state < TWO32
  {
    if n == 0 then 0x811c9dc5 else
      var before := Fnv1a(payload, n - 1);
      (before - before % 256 + XorByte(before % 256, payload[n - 1])) * 0x01000193 % TWO32
  }

  function SeedOf(payload: seq<byte>): (seed: nat)
    ensures seed < TWO32
  {
    Fnv1a(payload, if |payload| > 64 then 64 else |payload|)
  }

  method Fnv1aSeed(payload: seq<byte>) returns (state: nat)
    ensures state == SeedOf(payload)
  {
    state := 0x811c9dc5;
    var n := if |payload| > 64 then 64 else |payload|;
    for i := 0 to n
      invariant state == Fnv1a(payload, i)
    {
      var mixed: nat := state - state % 256 + XorByte(state % 256, payload[i]);
      state := mixed * 0x01000193 % TWO32;
    }
  }

  /** A QUIC short header: fixed bit set, long-header and reserved bits clear (section 17.3.1 of RFC 9000), and
    behind it bytes drawn from the generator. */
  ghost predicate IsQuicShort(b: seq<byte>, length: nat, seed: nat)
    requires length <= |b| && seed < TWO32
  {
    length > 0 ==>
      && 0x40 <= b[0] < 0x80 && b[0] / 8 % 4 == 0
      && b[0] % 4 == Drawn(seed, 2) % 4 && b[0] / 4 % 2 == Drawn(seed, 1) / 256 % 2 && b[0] / 32 % 2 == seed / 256 % 2
      && forall i :: 1 <= i < length ==> b[i] == Drawn(seed, i + 2) / 65536 % 256
  }

  lemma ShortHeader(spin: nat, keyPhase: nat, pnLenBits: nat)
    requires spin < 2 && keyPhase < 2 && pnLenBits < 4
    ensures var b := 0x40 + spin * 32 + keyPhase * 4 + pnLenBits;
      && 0x40 <= b < 0x80 && b / 8 % 4 == 0 && b % 4 == pnLenBits && b / 4 % 2 == keyPhase && b / 32 % 2 == spin
  {
  }

  /** A QUIC short header and pseudo-random bytes. */
  method WriteQuicShort(buf: array<byte>, padding: nat, seed: nat)
    requires padding <= buf.Length && seed < TWO32
    modifies buf
    ensures SameOutside(old(buf[..]), buf[..], 0, padding)
    ensures IsQuicShort(buf[..], padding, seed)
  {
    hide LcgStep, Drawn;
    if padding == 0 {
      return;
    }
    DrawnSteps(seed);
    var state: nat := seed;
    var spin := state / 256 % 2;
    state := LcgStep(state);
    var keyPhase := state / 256 % 2;
    state := LcgStep(state);
    var pnLenBits := state % 4;
    state := LcgStep(state);
    ShortHeader(spin, keyPhase, pnLenBits);
    buf[0] := 0x40 + spin * 32 + keyPhase * 4 + pnLenBits;
    ghost var first := buf[0];
    for i := 1 to padding
      invariant state == Drawn(seed, i + 2) && buf[0] == first && SameOutside(old(buf[..]), buf[..], 0, padding)
      invariant forall k :: 1 <= k < i ==> buf[k] == Drawn(seed, k + 2) / 65536 % 256
    {
      buf[i] := state / 65536 % 256;
      DrawnNext(seed, i + 2);
      state := LcgStep(state);
    }
  }

  lemma DrawnNext(seed: nat, n: nat)
    requires seed < TWO32
    ensures Drawn(seed, n + 1) == LcgStep(Drawn(seed, n))
  {
  }

  lemma DrawnSteps(seed: nat)
    requires seed < TWO32
    ensures Drawn(seed, 1) == LcgStep(seed) && Drawn(seed, 2) == LcgStep(LcgStep(seed))
    ensures Drawn(seed, 3) == LcgStep(LcgStep(LcgStep(seed)))
  {
    hide LcgStep;
    DrawnNext(seed, 0);
    DrawnNext(seed, 1);
    DrawnNext(seed, 2);
  }

  /** A datagram whose first `length` bytes were filled from `seed` passes for one of protocol `p`: QUIC by its
    first byte, STUN by its attributes, DNS by sections that end with the datagram, SIP by its Content-Length. */
  ghost predicate PassesFor(p: Proto, b: seq<byte>, length: nat, seed: nat)
    requires length <= |b| && seed < TWO32
  {
    match p
    case NoProto => true
    case Quic => IsQuicShort(b, length, seed)
    case Stun => length >= 20 ==> ImitateStun.IsStun(b, length)
    case Dns =>
      && (length >= 28 ==> (ImitateDns.MessageEnd(b) == Some(|b|) <==> |b| - 28 <= 0xFFFF))
      && (length >= ImitateDns.OPT_MIN && |b| - 28 <= 0xFFFF ==> ImitateDns.OptionsFill(b, 28, |b|))
    case Sip =>
      ImitateSip.FirstFit(seed, 0, length) < 3 ==>
        var head := ImitateSip.Head(seed, ImitateSip.FirstFit(seed, 0, length));
        ImitateSip.Complete(b, head) <==> ImitateSip.AllMandatory(seed, length) && ImitateSip.Countable(|head|, |b|, length)
  }

  /** Rewrites the bytes in front of the packet, and nothing else, seeded by the packet. */
  method FillPrefix(buf: array<byte>, padding: nat, p: Proto)
    modifies buf
    ensures SameOutside(old(buf[..]), buf[..], 0, padding)
    ensures padding == 0 || padding >= buf.Length || p == NoProto ==> buf[..] == old(buf[..])
    ensures 0 < padding < buf.Length ==> PassesFor(p, buf[..], padding, SeedOf(old(buf[padding..])))
    ensures 0 < padding < buf.Length && p == Dns ==> ImitateDns.Identified(buf[..], padding, ImitateDns.FirstTwo(old(buf[padding..])))
  {
    hide SameOutside, IsQuicShort, ImitateStun.IsStun, ImitateDns.MessageEnd, ImitateDns.OptionsFill, ImitateSip.AllMandatory, ImitateSip.Head,
         ImitateSip.FirstFit, ImitateSip.Countable, ImitateSip.Complete;
    Unchanged(buf[..], 0, padding);
    if padding == 0 || padding >= buf.Length {
      return;
    }
    var seed := Fnv1aSeed(buf[padding..]);
    match p {
      case NoProto =>
      case Quic => WriteQuicShort(buf, padding, seed);
      case Dns => ImitateDns.WriteDns(buf, padding);
      case Stun => ImitateStun.WriteStun(buf, padding, seed);
      case Sip => ImitateSip.WriteSip(buf, padding, seed);
    }
  }

  /** Fills a whole datagram. */
  method FillWhole(buf: array<byte>, seed: nat, p: Proto)
    requires seed < TWO32
    modifies buf
    ensures p == NoProto ==> buf[..] == old(buf[..])
    ensures PassesFor(p, buf[..], buf.Length, seed)
    ensures p == Dns ==> ImitateDns.Identified(buf[..], buf.Length, (seed / 256 % 256, seed % 256))
  {
    hide SameOutside, IsQuicShort, ImitateStun.IsStun, ImitateDns.MessageEnd, ImitateDns.OptionsFill, ImitateSip.AllMandatory, ImitateSip.Head,
         ImitateSip.FirstFit, ImitateSip.Countable, ImitateSip.Complete;
    match p {
      case NoProto =>
      case Quic => WriteQuicShort(buf, buf.Length, seed);
      case Dns => ImitateDns.WriteDnsWhole(buf, seed);
      case Stun => ImitateStun.WriteStun(buf, buf.Length, seed);
      case Sip => ImitateSip.WriteSip(buf, buf.Length, seed);
    }
  }
}
