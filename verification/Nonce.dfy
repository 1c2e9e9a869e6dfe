/** Nonce allocation for one keypair: the atomic steps of `SendStagedPackets` (device/send.go) taken by any
  number of senders in any order, with `ExpireCurrentKeypairs` (device/peer.go) in between. */
module Nonce {
  import opened Bytes
  import opened Sequences

  const REJECT_AFTER_MESSAGES: nat := TWO64 - 0x2000 - 1

  /** Senders that have found the counter below the limit are cleared to take nonces; senders about to store the
    limit are pending; `given` are the nonces given to packets, oldest first. */
  datatype State = State(sendNonce: nat, cleared: set<nat>, pending: set<nat>, given: seq<nat>)

  const START := State(0, {}, {}, [])

  datatype Step =
    | Check(sender: nat)
    | Take(sender: nat)
    | Restore(sender: nat)
    | Expire

  /** `Add(1) - 1`, in 64 bits. */
  function Next(n: nat): nat {
    (n + 1) % TWO64
  }

  predicate Enabled(s: State, step: Step, senders: nat) {
    match step
    case Check(i) => i < senders && i !in s.pending
    case Take(i) => i < senders && i in s.cleared && i !in s.pending
    case Restore(i) => i in s.pending
    case Expire => true
  }

  function Apply(s: State, step: Step): State {
    match step
    case Check(i) => s.(cleared := if s.sendNonce < REJECT_AFTER_MESSAGES then s.cleared + {i} else s.cleared - {i})
    case Take(i) =>
      if s.sendNonce >= REJECT_AFTER_MESSAGES then s.(sendNonce := Next(s.sendNonce), pending := s.pending + {i})
      else s.(sendNonce := Next(s.sendNonce), given := s.given + [s.sendNonce])
    case Restore(i) => s.(sendNonce := REJECT_AFTER_MESSAGES, pending := s.pending - {i})
    case Expire => s.(sendNonce := REJECT_AFTER_MESSAGES)
  }

  function After(steps: seq<Step>): State {
    if steps == [] then START else Apply(After(steps[..|steps| - 1]), steps[|steps| - 1])
  }

  /** A run of at most `senders` concurrent senders. */
  ghost predicate Legal(steps: seq<Step>, senders: nat) {
    steps == [] ||
    (Legal(steps[..|steps| - 1], senders) && Enabled(After(steps[..|steps| - 1]), steps[|steps| - 1], senders))
  }

  lemma LegalStep(steps: seq<Step>, step: Step, senders: nat)
    requires Legal(steps, senders) && Enabled(After(steps), step, senders)
    ensures Legal(steps + [step], senders) && After(steps + [step]) == Apply(After(steps), step)
  {
    assert (steps + [step])[..|steps|] == steps;
  }

  /** The counter wraps in the next step. */
  predicate Wraps(s: State, step: Step) {
    step.Take? && Next(s.sendNonce) != s.sendNonce + 1
  }

  /** No step of the run makes the counter wrap. */
  ghost predicate NeverWraps(steps: seq<Step>) {
    forall k :: 0 <= k < |steps| ==> !Wraps(After(steps[..k]), steps[k])
  }

  // ----- Safety

  /** Past the limit, the counter is no further than the number of senders that will put it back; `value` is
    the counter before reduction to 64 bits. */
  ghost predicate Bounded(s: State, value: nat, senders: nat) {
    && s.sendNonce == value % TWO64
    && (forall i :: i in s.pending ==> i < senders)
    && value <= REJECT_AFTER_MESSAGES + |s.pending|
    && (forall k :: 0 <= k < |s.given| ==> s.given[k] < value && s.given[k] < REJECT_AFTER_MESSAGES)
    && (forall i, j :: 0 <= i < j < |s.given| ==> s.given[i] < s.given[j])
  }

  lemma {:induction false} SetBound(s: set<nat>, n: nat)
    requires forall i :: i in s ==> i < n
    ensures |s| <= n
    decreases n
  {
    if n > 0 {
      SetBound(s - {n - 1}, n - 1);
      if n - 1 in s {
        assert s == (s - {n - 1}) + {n - 1};
      } else {
        assert s == s - {n - 1};
      }
    } else {
      assert s == {};
    }
  }

  /** A sender that is not pending leaves room for one more. */
  lemma RoomForOne(s: set<nat>, n: nat, i: nat)
    requires (forall j :: j in s ==> j < n) && i < n && i !in s
    ensures |s| < n
  {
    SetBound(s + {i}, n);
  }

  lemma TakeBounded(s: State, i: nat, senders: nat, value: nat)
    requires Bounded(s, value, senders) && Enabled(s, Take(i), senders) && senders <= 0x2001
    ensures Bounded(Apply(s, Take(i)), value + 1, senders)
    ensures Wraps(s, Take(i)) ==> senders == 0x2001
  {
    RoomForOne(s.pending, senders, i);
    assert s.sendNonce == value;
  }

  lemma StepBounded(s: State, step: Step, senders: nat, value: nat) returns (value': nat)
    requires Bounded(s, value, senders) && Enabled(s, step, senders) && senders <= 0x2001
    ensures Bounded(Apply(s, step), value', senders)
    ensures Wraps(s, step) ==> senders == 0x2001
  {
    match step {
      case Check(_) =>
        value' := value;
      case Take(i) =>
        TakeBounded(s, i, senders, value);
        value' := value + 1;
      case Restore(i) =>
        value' := REJECT_AFTER_MESSAGES;
      case Expire =>
        value' := REJECT_AFTER_MESSAGES;
    }
  }

  lemma {:induction false} AlwaysBounded(steps: seq<Step>, senders: nat) returns (value: nat)
    requires Legal(steps, senders) && senders <= 0x2001
    ensures Bounded(After(steps), value, senders)
  {
    value := 0;
    if steps == [] {
    } else {
      value := AlwaysBounded(steps[..|steps| - 1], senders);
      value := StepBounded(After(steps[..|steps| - 1]), steps[|steps| - 1], senders, value);
    }
  }

  lemma {:induction false} LegalPrefix(steps: seq<Step>, senders: nat, k: nat)
    requires Legal(steps, senders) && k <= |steps|
    ensures Legal(steps[..k], senders) && (k < |steps| ==> Enabled(After(steps[..k]), steps[k], senders))
  {
    if k == |steps| {
      assert steps[..k] == steps;
    } else {
      LegalPrefix(steps[..|steps| - 1], senders, if k < |steps| - 1 then k else |steps| - 1);
      if k < |steps| - 1 {
        assert steps[..|steps| - 1][..k] == steps[..k];
      }
    }
  }

  /** Up to 8193 senders, no packet nonce is given out twice, and all are below the limit. */
  lemma NoncesUnique(steps: seq<Step>, senders: nat)
    requires Legal(steps, senders) && senders <= 0x2001
    ensures Distinct(After(steps).given) && forall n :: n in After(steps).given ==> n < REJECT_AFTER_MESSAGES
  {
    var value := AlwaysBounded(steps, senders);
  }

  /** Up to 8192 senders, the counter never wraps. */
  lemma NoWrap(steps: seq<Step>, senders: nat)
    requires Legal(steps, senders) && senders <= 0x2000
    ensures NeverWraps(steps)
  {
    forall k | 0 <= k < |steps| ensures !Wraps(After(steps[..k]), steps[k]) {
      LegalPrefix(steps, senders, k);
      var value := AlwaysBounded(steps[..k], senders);
      var _ := StepBounded(After(steps[..k]), steps[k], senders, value);
    }
  }

  // ----- Tightness

  /** Senders 0 to `m` all find the counter below the limit. */
  function Checks(m: nat): (steps: seq<Step>)
    ensures |steps| == m
  {
    if m == 0 then [] else Checks(m - 1) + [Check(m - 1)]
  }

  /** Then one packet, an expiry, and senders 0 to `n` each taking a nonce past the limit. */
  function Stampede(m: nat, n: nat): (steps: seq<Step>)
    ensures |steps| == m + n + 2
  {
    if n == 0 then Checks(m) + [Take(0)] + [Expire] else Stampede(m, n - 1) + [Take(n - 1)]
  }

  ghost function UpTo(n: nat): (s: set<nat>)
    ensures forall i :: i in s <==> 0 <= i < n
  {
    if n == 0 then {} else UpTo(n - 1) + {n - 1}
  }

  lemma {:induction false} ChecksState(m: nat, senders: nat)
    requires m <= senders
    ensures Legal(Checks(m), senders) && After(Checks(m)) == State(0, UpTo(m), {}, [])
  {
    hide Legal, After;
    if m == 0 {
      NoSteps(senders);
    } else {
      ChecksState(m - 1, senders);
      LegalStep(Checks(m - 1), Check(m - 1), senders);
    }
  }

  lemma NoSteps(senders: nat)
    ensures Legal([], senders) && After([]) == START
  {
  }

  lemma {:induction false} StampedeState(m: nat, n: nat, senders: nat)
    requires n <= m <= senders && m > 0 && n <= 0x2001
    ensures Legal(Stampede(m, n), senders)
    ensures After(Stampede(m, n)) == State((REJECT_AFTER_MESSAGES + n) % TWO64, UpTo(m), UpTo(n), [0])
  {
    hide Legal, After;
    if n == 0 {
      StampedeStart(m, senders);
    } else {
      StampedeState(m, n - 1, senders);
      TakeLate(m, n);
      LegalStep(Stampede(m, n - 1), Take(n - 1), senders);
    }
  }

  lemma StampedeStart(m: nat, senders: nat)
    requires 0 < m <= senders
    ensures Legal(Stampede(m, 0), senders) && After(Stampede(m, 0)) == State(REJECT_AFTER_MESSAGES, UpTo(m), {}, [0])
  {
    hide Legal, After;
    ChecksState(m, senders);
    LegalStep(Checks(m), Take(0), senders);
    LegalStep(Checks(m) + [Take(0)], Expire, senders);
  }

  lemma TakeLate(m: nat, n: nat)
    requires 0 < n <= 0x2001
    ensures Apply(State((REJECT_AFTER_MESSAGES + n - 1) % TWO64, UpTo(m), UpTo(n - 1), [0]), Take(n - 1))
      == State((REJECT_AFTER_MESSAGES + n) % TWO64, UpTo(m), UpTo(n), [0])
  {
  }

  /** The counter is safe from wrapping for exactly up to 8192 concurrent senders. */
  lemma WrapFreeExactly(senders: nat)
    ensures (forall steps :: Legal(steps, senders) ==> NeverWraps(steps)) <==> senders <= 0x2000
  {
    if senders <= 0x2000 {
      forall steps | Legal(steps, senders) ensures NeverWraps(steps) {
        NoWrap(steps, senders);
      }
    } else {
      StampedeWraps(0x2001, senders);
    }
  }

  lemma StampedeWraps(n: nat, senders: nat)
    requires n == 0x2001 <= senders
    ensures Legal(Stampede(n, n), senders) && !NeverWraps(Stampede(n, n))
  {
    hide Legal, After;
    StampedeState(n, n - 1, senders);
    StampedeState(n, n, senders);
    var steps, k := Stampede(n, n), n + n + 1;
    assert steps == Stampede(n, n - 1) + [Take(n - 1)];
    hide Stampede;
    assert steps[..k] == Stampede(n, n - 1);
    assert Wraps(After(steps[..k]), steps[k]);
  }

  /** Nonces are unique for exactly up to 8193 concurrent senders. */
  lemma UniqueExactly(senders: nat)
    ensures (forall steps :: Legal(steps, senders) ==> Distinct(After(steps).given)) <==> senders <= 0x2001
  {
    if senders <= 0x2001 {
      forall steps | Legal(steps, senders) ensures Distinct(After(steps).given) {
        NoncesUnique(steps, senders);
      }
    } else {
      StampedeRepeats(0x2001, senders);
    }
  }

  lemma StampedeRepeats(n: nat, senders: nat)
    requires n == 0x2001 < senders
    ensures var steps := Stampede(n + 1, n) + [Take(n)]; Legal(steps, senders) && !Distinct(After(steps).given)
  {
    hide Legal, After, Stampede;
    StampedeState(n + 1, n, senders);
    LegalStep(Stampede(n + 1, n), Take(n), senders);
    var given := After(Stampede(n + 1, n) + [Take(n)]).given;
    assert given[0] == given[1];
  }

  // ----- One container of packets

  datatype Packet<K> = Packet(id: nat, nonce: nat, keypair: K)

  /** The packets whose nonce is usable, with nonce and keypair filled in, in order. */
  function Kept<K>(elems: seq<Packet<K>>, nonces: seq<nat>, keypair: K): (r: seq<Packet<K>>)
    requires |nonces| == |elems|
    ensures |r| <= |elems|
  {
    if elems == [] then []
    else
      var n := |elems| - 1;
      Kept(elems[..n], nonces[..n], keypair)
      + if nonces[n] < REJECT_AFTER_MESSAGES then [elems[n].(nonce := nonces[n], keypair := keypair)] else []
  }

  /** The packets that came too late, in order. */
  function Late<K>(elems: seq<Packet<K>>, nonces: seq<nat>): seq<Packet<K>>
    requires |nonces| == |elems|
  {
    if elems == [] then []
    else
      var n := |elems| - 1;
      Late(elems[..n], nonces[..n]) + if nonces[n] < REJECT_AFTER_MESSAGES then [] else [elems[n].(nonce := nonces[n])]
  }

  // ----- Drawing the nonces of a container while others use the counter

  predicate By(step: Step, i: nat) {
    step == Check(i) || step == Take(i) || step == Restore(i)
  }

  /** The steps from `from` on that sender `i` takes nonces in are those at `times`, in order. */
  ghost predicate TakenAt(run: seq<Step>, from: nat, i: nat, times: seq<nat>) {
    && (forall k :: 0 <= k < |times| ==> from <= times[k] < |run| && run[times[k]] == Take(i))
    && (forall k, l :: 0 <= k < l < |times| ==> times[k] < times[l])
    && (forall t :: from <= t < |run| && run[t] == Take(i) ==> t in times)
  }

  /** The nonces drawn at `times`. */
  ghost predicate Drawn(run: seq<Step>, times: seq<nat>, nonces: seq<nat>) {
    |times| == |nonces| && forall k :: 0 <= k < |times| ==> times[k] < |run| && nonces[k] == After(run[..times[k]]).sendNonce
  }

  predicate SameStanding(s: State, s': State, i: nat) {
    (i in s'.cleared <==> i in s.cleared) && (i in s'.pending <==> i in s.pending)
  }

  /** What others do to the counter meanwhile; what they cannot do now they do not do. */
  method Meanwhile(s: State, ghost run: seq<Step>, steps: seq<Step>, me: nat, senders: nat, ghost from: nat, ghost times: seq<nat>, ghost nonces: seq<nat>)
    returns (s': State, ghost run': seq<Step>)
    requires Legal(run, senders) && s == After(run) && from <= |run| && TakenAt(run, from, me, times) && Drawn(run, times, nonces)
    ensures Legal(run', senders) && s' == After(run') && run <= run' && SameStanding(s, s', me)
    ensures TakenAt(run', from, me, times) && Drawn(run', times, nonces)
  {
    hide Legal, After, TakenAt, Drawn;
    s', run' := s, run;
    for k := 0 to |steps|
      invariant Legal(run', senders) && s' == After(run') && run <= run' && SameStanding(s, s', me)
      invariant TakenAt(run', from, me, times) && Drawn(run', times, nonces)
    {
      if Enabled(s', steps[k], senders) && !By(steps[k], me) {
        LegalStep(run', steps[k], senders);
        OthersStep(run', steps[k], from, me, times, nonces);
        s', run' := Apply(s', steps[k]), run' + [steps[k]];
      }
    }
  }

  lemma OthersStep(run: seq<Step>, step: Step, from: nat, me: nat, times: seq<nat>, nonces: seq<nat>)
    requires TakenAt(run, from, me, times) && Drawn(run, times, nonces) && step != Take(me)
    ensures TakenAt(run + [step], from, me, times) && Drawn(run + [step], times, nonces)
  {
    hide After;
    forall k | 0 <= k < |times| ensures nonces[k] == After((run + [step])[..times[k]]).sendNonce {
      assert (run + [step])[..times[k]] == run[..times[k]];
    }
  }

  lemma OwnStep(run: seq<Step>, from: nat, me: nat, times: seq<nat>, nonces: seq<nat>)
    requires from <= |run| && TakenAt(run, from, me, times) && Drawn(run, times, nonces)
    ensures TakenAt(run + [Take(me)], from, me, times + [|run|])
    ensures Drawn(run + [Take(me)], times + [|run|], nonces + [After(run).sendNonce])
  {
    hide After;
    var run' := run + [Take(me)];
    assert run'[..|run|] == run;
    forall k | 0 <= k < |times| ensures nonces[k] == After(run'[..times[k]]).sendNonce {
      assert run'[..times[k]] == run[..times[k]];
    }
    forall t | from <= t < |run'| && run'[t] == Take(me) ensures t in times + [|run|] {
      if t < |run| {
        assert run[t] == Take(me);
      } else {
        assert (times + [|run|])[|times|] == t;
      }
    }
  }

  /** Draws a nonce for each packet of a container, one by one, for a sender that has checked the counter, while others use the counter as `others` says.
    The container is compacted in place; packets past the limit put the counter back and are set aside to be
    staged again. */
  method AssignNonces<K>(elems: array<Packet<K>>, keypair: K, s: State, ghost run: seq<Step>, me: nat, senders: nat, others: nat -> seq<Step>)
    returns (i: nat, ooo: seq<Packet<K>>, s': State, ghost run': seq<Step>, ghost times: seq<nat>, ghost nonces: seq<nat>)
    requires Legal(run, senders) && s == After(run) && me < senders && me in s.cleared && me !in s.pending
    modifies elems
    ensures Legal(run', senders) && s' == After(run') && run <= run' && SameStanding(s, s', me)
    ensures |nonces| == elems.Length && TakenAt(run', |run|, me, times) && Drawn(run', times, nonces)
    ensures i <= elems.Length && elems[..i] == Kept(old(elems[..]), nonces, keypair)
    ensures ooo == Late(old(elems[..]), nonces)
  {
    hide Legal, After, TakenAt, Drawn, Kept, Late;
    ghost var was := elems[..];
    i, ooo, s', run', times, nonces := 0, [], s, run, [], [];
    StartDrawing(run, me);
    NothingKept(was, keypair);
    for j := 0 to elems.Length
      invariant Legal(run', senders) && s' == After(run') && run <= run' && SameStanding(s, s', me)
      invariant |nonces| == j && TakenAt(run', |run|, me, times) && Drawn(run', times, nonces)
      invariant i <= j && elems[..i] == Kept(was[..j], nonces, keypair) && ooo == Late(was[..j], nonces)
      invariant elems[j..] == was[j..]
    {
      assert elems[j] == elems[j..][0] == was[j];
      s', run' := Meanwhile(s', run', others(2 * j), me, senders, |run|, times, nonces);
      var elem := elems[j].(nonce := s'.sendNonce);
      ghost var before := nonces;
      LegalStep(run', Take(me), senders);
      OwnStep(run', |run|, me, times, nonces);
      times, nonces := times + [|run'|], nonces + [elem.nonce];
      s', run' := Apply(s', Take(me)), run' + [Take(me)];
      KeptStep(was, j, before, elem.nonce, keypair);
      if elem.nonce >= REJECT_AFTER_MESSAGES {
        s', run' := Meanwhile(s', run', others(2 * j + 1), me, senders, |run|, times, nonces);
        LegalStep(run', Restore(me), senders);
        OthersStep(run', Restore(me), |run|, me, times, nonces);
        s', run' := Apply(s', Restore(me)), run' + [Restore(me)];
        ooo := ooo + [elem];
      } else {
        elems[i] := elem.(keypair := keypair);
        i := i + 1;
      }
      assert elems[j + 1..] == was[j..][1..];
    }
    assert was[..elems.Length] == was;
  }

  lemma StartDrawing(run: seq<Step>, me: nat)
    ensures TakenAt(run, |run|, me, []) && Drawn(run, [], [])
  {
  }

  lemma NothingKept<K>(elems: seq<Packet<K>>, keypair: K)
    ensures Kept(elems[..0], [], keypair) == [] && Late(elems[..0], []) == []
  {
  }

  lemma KeptStep<K>(elems: seq<Packet<K>>, j: nat, nonces: seq<nat>, nonce: nat, keypair: K)
    requires j < |elems| && |nonces| == j
    ensures Kept(elems[..j + 1], nonces + [nonce], keypair)
      == Kept(elems[..j], nonces, keypair) + if nonce < REJECT_AFTER_MESSAGES then [elems[j].(nonce := nonce, keypair := keypair)] else []
    ensures Late(elems[..j + 1], nonces + [nonce])
      == Late(elems[..j], nonces) + if nonce < REJECT_AFTER_MESSAGES then [] else [elems[j].(nonce := nonce)]
  {
    assert elems[..j + 1][..j] == elems[..j] && (nonces + [nonce])[..j] == nonces;
  }

  lemma {:induction false} GivenGrows(run: seq<Step>, t: nat)
    requires t <= |run|
    ensures After(run[..t]).given <= After(run).given
  {
    if t == |run| {
      assert run[..t] == run;
    } else {
      var n := |run| - 1;
      GivenGrows(run[..n], t);
      assert run[..n][..t] == run[..t];
    }
  }

  /** A usable nonce drawn at step `t` is the next one given out. */
  lemma DrawnGiven(run: seq<Step>, t: nat)
    requires t < |run| && run[t].Take? && After(run[..t]).sendNonce < REJECT_AFTER_MESSAGES
    ensures var g := |After(run[..t]).given|; g < |After(run).given| && After(run).given[g] == After(run[..t]).sendNonce
    ensures |After(run[..t + 1]).given| == |After(run[..t]).given| + 1
  {
    GivenGrows(run, t + 1);
    assert run[..t + 1][..t] == run[..t];
  }

  /** With up to 8193 senders, the nonces a container keeps increase strictly, and none was given out before
    it or to anyone else. */
  lemma ContainerUnique(run: seq<Step>, senders: nat, from: nat, me: nat, times: seq<nat>, nonces: seq<nat>, k: nat, t: nat)
    requires Legal(run, senders) && senders <= 0x2001 && TakenAt(run, from, me, times) && Drawn(run, times, nonces)
    requires k < |nonces| && nonces[k] < REJECT_AFTER_MESSAGES
    requires t < |run| && run[t].Take? && After(run[..t]).sendNonce < REJECT_AFTER_MESSAGES
    ensures t < times[k] ==> After(run[..t]).sendNonce < nonces[k]
    ensures t > times[k] ==> After(run[..t]).sendNonce > nonces[k]
  {
    hide After, Legal;
    DrawnGiven(run, t);
    DrawnGiven(run, times[k]);
    var value := AlwaysBounded(run, senders);
    if t < times[k] {
      GivenOrder(run, t, times[k]);
    } else if t > times[k] {
      GivenOrder(run, times[k], t);
    }
  }

  lemma GivenOrder(run: seq<Step>, t: nat, u: nat)
    requires t < u <= |run|
    ensures |After(run[..t + 1]).given| <= |After(run[..u]).given|
  {
    hide After;
    GivenGrows(run[..u], t + 1);
    assert run[..u][..t + 1] == run[..t + 1];
  }

  function Ids<K>(elems: seq<Packet<K>>): (r: seq<nat>)
    ensures |r| == |elems| && forall k :: 0 <= k < |r| ==> r[k] == elems[k].id
  {
    seq(|elems|, k requires 0 <= k < |elems| => elems[k].id)
  }

  lemma IdsAppend<K>(elems: seq<Packet<K>>, p: Packet<K>)
    ensures multiset(Ids(elems + [p])) == multiset(Ids(elems)) + multiset{p.id}
  {
    assert Ids(elems + [p]) == Ids(elems) + [p.id];
  }

  lemma Split<K>(elems: seq<Packet<K>>, nonces: seq<nat>, keypair: K)
    requires |nonces| == |elems| > 0
    ensures var n := |elems| - 1; var kept, late := Kept(elems[..n], nonces[..n], keypair), Late(elems[..n], nonces[..n]);
      if nonces[n] < REJECT_AFTER_MESSAGES then
        Kept(elems, nonces, keypair) == kept + [elems[n].(nonce := nonces[n], keypair := keypair)] && Late(elems, nonces) == late
      else
        Kept(elems, nonces, keypair) == kept && Late(elems, nonces) == late + [elems[n].(nonce := nonces[n])]
  {
  }

  /** Every packet of the container is either kept, with a usable nonce, or set aside, once. */
  lemma {:induction false} NothingLost<K>(elems: seq<Packet<K>>, nonces: seq<nat>, keypair: K)
    requires |nonces| == |elems|
    ensures multiset(Ids(Kept(elems, nonces, keypair))) + multiset(Ids(Late(elems, nonces))) == multiset(Ids(elems))
    ensures forall k :: 0 <= k < |Kept(elems, nonces, keypair)| ==> Kept(elems, nonces, keypair)[k].nonce < REJECT_AFTER_MESSAGES
  {
    if elems == [] {
    } else {
      var n := |elems| - 1;
      NothingLost(elems[..n], nonces[..n], keypair);
      Split(elems, nonces, keypair);
      hide Kept, Late, Ids;
      assert elems == elems[..n] + [elems[n]];
      IdsAppend(elems[..n], elems[n]);
      IdsAppend(Kept(elems[..n], nonces[..n], keypair), elems[n].(nonce := nonces[n], keypair := keypair));
      IdsAppend(Late(elems[..n], nonces[..n]), elems[n].(nonce := nonces[n]));
    }
  }
}
