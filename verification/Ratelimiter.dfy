/** The per-address token bucket of ratelimiter/ratelimiter.go and its garbage collection.

  Times are nanoseconds; every call reads the clock once. Calls are taken one at a time. */
module Ratelimiter {
  import opened Bytes

  const GARBAGE_COLLECT_TIME: int := 1_000_000_000
  /** A second's worth shared by 20 packets; a burst is 5 packets. */
  const PACKET_COST: int := 50_000_000
  const MAX_TOKENS: int := 250_000_000
  const MAX64: int := 0x7fff_ffff_ffff_ffff

  type Addr = nat

  datatype Entry = Entry(lastTime: int, tokens: int)

  type Table = map<Addr, Entry>

  /** `Time.Sub`, which saturates; the clock does not go back. */
  function Sub(now: int, last: int): int {
    if now - last > MAX64 then MAX64 else now - last
  }

  /** Signed 64-bit addition. */
  function Add64(x: int, y: int): int {
    if x + y > MAX64 then x + y - TWO64 else x + y
  }

  /** What an address may spend now. */
  function Level(t: Table, ip: Addr, now: int): int {
    if ip !in t then MAX_TOKENS
    else
      var tokens := Add64(t[ip].tokens, Sub(now, t[ip].lastTime));
      if tokens > MAX_TOKENS then MAX_TOKENS else tokens
  }

  predicate Allowed(t: Table, ip: Addr, now: int) {
    Level(t, ip, now) > PACKET_COST
  }

  function Spent(t: Table, ip: Addr, now: int): Table {
    t[ip := Entry(now, Level(t, ip, now) - if Allowed(t, ip, now) then PACKET_COST else 0)]
  }

  predicate Idle(e: Entry, now: int) {
    Sub(now, e.lastTime) > GARBAGE_COLLECT_TIME
  }

  function Collected(t: Table, now: int): Table {
    map ip | ip in t && !Idle(t[ip], now) :: t[ip]
  }

  class Limiter {
    var table: Table

    constructor ()
      ensures table == map[]
    {
      table := map[];
    }

    /** Lets the packet pass if more than its cost is left; a new address starts with a full bucket. */
    method Allow(ip: Addr, now: int) returns (ok: bool)
      modifies this
      ensures ok == Allowed(old(table), ip, now) && table == Spent(old(table), ip, now)
    {
      if ip !in table {
        table := table[ip := Entry(now, MAX_TOKENS - PACKET_COST)];
        return true;
      }
      var entry := table[ip];
      entry := entry.(tokens := Add64(entry.tokens, Sub(now, entry.lastTime)));
      entry := entry.(lastTime := now);
      if entry.tokens > MAX_TOKENS {
        entry := entry.(tokens := MAX_TOKENS);
      }
      if entry.tokens > PACKET_COST {
        entry := entry.(tokens := entry.tokens - PACKET_COST);
        ok := true;
      } else {
        ok := false;
      }
      table := table[ip := entry];
    }

    /** Drops the idle entries, and reports whether none is left. */
    method Cleanup(now: int) returns (empty: bool)
      modifies this
      ensures table == Collected(old(table), now) && empty == (table == map[])
    {
      var keys := table.Keys;
      while keys != {}
        invariant keys <= table.Keys <= old(table).Keys
        invariant forall ip :: ip in table ==> table[ip] == old(table)[ip]
        invariant forall ip :: ip in old(table) && ip !in keys ==> (ip in table <==> !Idle(old(table)[ip], now))
        decreases |keys|
      {
        var key :| key in keys;
        if Idle(table[key], now) {
          table := table - {key};
        }
        keys := keys - {key};
      }
      empty := table.Keys == {};
    }
  }

  // ----- Runs

  datatype Op = Allow(ip: Addr, now: int) | Cleanup(now: int)

  function After(ops: seq<Op>): (t: Table) {
    if ops == [] then map[]
    else Step(After(ops[..|ops| - 1]), ops[|ops| - 1])
  }

  function Step(t: Table, op: Op): Table {
    match op
    case Allow(ip, now) => Spent(t, ip, now)
    case Cleanup(now) => Collected(t, now)
  }

  lemma AfterStep(ops: seq<Op>, op: Op)
    ensures After(ops + [op]) == Step(After(ops), op)
  {
    assert (ops + [op])[..|ops|] == ops;
  }

  lemma AnswersStep(ops: seq<Op>, op: Op)
    ensures op.Allow? ==> Answers(ops + [op]) == Answers(ops) + [Allowed(After(ops), op.ip, op.now)]
    ensures !op.Allow? ==> Answers(ops + [op]) == Answers(ops)
  {
    hide After, Allowed;
    assert (ops + [op])[..|ops|] == ops;
  }

  lemma UncollectedAppend(ops: seq<Op>, op: Op)
    ensures op.Allow? ==> Uncollected(ops + [op]) == Uncollected(ops) + [op]
    ensures !op.Allow? ==> Uncollected(ops + [op]) == Uncollected(ops)
  {
    assert (ops + [op])[..|ops|] == ops;
  }

  /** The answers given to the `Allow` calls. */
  function Answers(ops: seq<Op>): seq<bool> {
    if ops == [] then []
    else
      var op := ops[|ops| - 1];
      Answers(ops[..|ops| - 1]) + if op.Allow? then [Allowed(After(ops[..|ops| - 1]), op.ip, op.now)] else []
  }

  /** A limiter from its creation on. */
  method Run(ops: seq<Op>) returns (answers: seq<bool>)
    ensures answers == Answers(ops)
  {
    hide Spent, Allowed, Collected;
    var limiter := new Limiter();
    answers := [];
    for i := 0 to |ops|
      invariant limiter.table == After(ops[..i]) && answers == Answers(ops[..i])
    {
      assert ops[..i + 1] == ops[..i] + [ops[i]];
      AfterStep(ops[..i], ops[i]);
      AnswersStep(ops[..i], ops[i]);
      match ops[i] {
        case Allow(ip, now) =>
          var ok := limiter.Allow(ip, now);
          answers := answers + [ok];
        case Cleanup(now) =>
          var _ := limiter.Cleanup(now);
      }
    }
    assert ops[..|ops|] == ops;
  }

  /** The clock does not go back. */
  ghost predicate Ordered(ops: seq<Op>) {
    forall i, j :: 0 <= i < j < |ops| ==> ops[i].now <= ops[j].now
  }

  /** The same run without garbage collection. */
  function Uncollected(ops: seq<Op>): (r: seq<Op>)
    ensures forall i :: 0 <= i < |r| ==> r[i].Allow?
  {
    if ops == [] then []
    else Uncollected(ops[..|ops| - 1]) + if ops[|ops| - 1].Allow? then [ops[|ops| - 1]] else []
  }

  /** Every entry has at most the burst, and was used no later than `now`. */
  ghost predicate Sane(t: Table, now: int) {
    forall ip :: ip in t ==> t[ip].tokens <= MAX_TOKENS && t[ip].lastTime <= now
  }

  lemma {:induction false} SaneAfter(ops: seq<Op>, now: int)
    requires Ordered(ops) && (ops != [] ==> ops[|ops| - 1].now <= now)
    ensures Sane(After(ops), now)
  {
    if ops == [] {
    } else {
      SaneAfter(ops[..|ops| - 1], ops[|ops| - 1].now);
    }
  }

  /** The 64-bit sum of what is left and what has accrued is exact. */
  predicate Exact(t: Table, ip: Addr, now: int) {
    ip in t ==> t[ip].tokens + Sub(now, t[ip].lastTime) <= MAX64
  }

  /** No address stays away so long that a sum overflows (some 292 years). */
  ghost predicate NeverAway(ops: seq<Op>) {
    ops == [] ||
    (NeverAway(ops[..|ops| - 1]) &&
     (ops[|ops| - 1].Allow? ==> Exact(After(Uncollected(ops[..|ops| - 1])), ops[|ops| - 1].ip, ops[|ops| - 1].now)))
  }

  /** With and without garbage collection, tables differ only in entries that are full again. */
  ghost predicate Agrees(t: Table, u: Table, now: int) {
    forall ip :: SameOrFull(t, u, ip, now)
  }

  ghost predicate SameOrFull(t: Table, u: Table, ip: Addr, now: int) {
    || (ip in t && ip in u && t[ip] == u[ip])
    || (ip !in t && (ip in u ==> u[ip].tokens >= 0 && now - u[ip].lastTime > GARBAGE_COLLECT_TIME))
  }

  /** As far as sums are exact, no entry is ever overdrawn. */
  lemma {:induction false} NotOverdrawn(ops: seq<Op>)
    requires Ordered(ops) && NeverAway(ops)
    ensures forall ip :: ip in After(Uncollected(ops)) ==> After(Uncollected(ops))[ip].tokens >= 0
  {
    if ops == [] {
    } else {
      var front, op := ops[..|ops| - 1], ops[|ops| - 1];
      NotOverdrawn(front);
      UncollectedStep(ops);
      if op.Allow? {
        UncollectedOrdered(front, op.now);
        SaneAfter(Uncollected(front), op.now);
      }
    }
  }

  lemma UncollectedStep(ops: seq<Op>)
    requires ops != []
    ensures var front, op := ops[..|ops| - 1], ops[|ops| - 1];
      if op.Allow? then
        && After(Uncollected(ops)) == Spent(After(Uncollected(front)), op.ip, op.now)
        && Answers(Uncollected(ops)) == Answers(Uncollected(front)) + [Allowed(After(Uncollected(front)), op.ip, op.now)]
      else
        Uncollected(ops) == Uncollected(front)
  {
    var front, op := ops[..|ops| - 1], ops[|ops| - 1];
    if op.Allow? {
      assert Uncollected(ops)[..|Uncollected(front)|] == Uncollected(front);
    }
  }

  lemma {:induction false} UncollectedOrdered(ops: seq<Op>, now: int)
    requires Ordered(ops) && forall i :: 0 <= i < |ops| ==> ops[i].now <= now
    ensures Ordered(Uncollected(ops)) && forall i :: 0 <= i < |Uncollected(ops)| ==> Uncollected(ops)[i].now <= now
  {
    if ops == [] {
    } else {
      UncollectedOrdered(ops[..|ops| - 1], ops[|ops| - 1].now);
    }
  }

  lemma {:induction false} CollectionHidden(ops: seq<Op>, now: int)
    requires Ordered(ops) && NeverAway(ops) && (ops != [] ==> ops[|ops| - 1].now <= now)
    ensures Answers(ops) == Answers(Uncollected(ops))
    ensures Agrees(After(ops), After(Uncollected(ops)), now)
  {
    if ops == [] {
    } else {
      var front, op := ops[..|ops| - 1], ops[|ops| - 1];
      CollectionHidden(front, op.now);
      UncollectedStep(ops);
      NotOverdrawn(front);
      var t, u := After(front), After(Uncollected(front));
      UncollectedOrdered(front, op.now);
      SaneAfter(Uncollected(front), op.now);
      if op.Allow? {
        AllowAgrees(t, u, op.ip, op.now);
        Later(Spent(t, op.ip, op.now), Spent(u, op.ip, op.now), op.now, now);
      } else {
        CleanupAgrees(t, u, op.now);
        Later(Collected(t, op.now), u, op.now, now);
      }
    }
  }

  lemma Later(t: Table, u: Table, now: int, now': int)
    requires Agrees(t, u, now) && now <= now'
    ensures Agrees(t, u, now')
  {
    forall ip ensures SameOrFull(t, u, ip, now') {
      assert SameOrFull(t, u, ip, now);
    }
  }

  lemma AllowAgrees(t: Table, u: Table, ip: Addr, now: int)
    requires Agrees(t, u, now) && Exact(u, ip, now) && Sane(u, now)
    ensures Level(t, ip, now) == Level(u, ip, now)
    ensures Agrees(Spent(t, ip, now), Spent(u, ip, now), now)
  {
    assert SameOrFull(t, u, ip, now);
    forall q ensures SameOrFull(Spent(t, ip, now), Spent(u, ip, now), q, now) {
      assert SameOrFull(t, u, q, now);
    }
  }

  lemma CleanupAgrees(t: Table, u: Table, now: int)
    requires Agrees(t, u, now) && Sane(u, now) && forall ip :: ip in u ==> u[ip].tokens >= 0
    ensures Agrees(Collected(t, now), u, now)
  {
    forall q ensures SameOrFull(Collected(t, now), u, q, now) {
      assert SameOrFull(t, u, q, now);
    }
  }

  /** An overflowing sum is seen: with a cleanup just before, the packet passes; without, it does not. */
  lemma DropSeen(t: Table, ip: Addr, now: int)
    requires Sane(t, now) && !Exact(t, ip, now)
    ensures !Allowed(t, ip, now) && Allowed(Collected(t, now), ip, now)
  {
  }

  lemma {:induction false} AnswersPrefix(ops: seq<Op>, n: nat)
    requires n <= |ops|
    ensures Answers(ops[..n]) <= Answers(ops)
    decreases |ops| - n
  {
    hide Allowed;
    if n == |ops| {
      assert ops[..n] == ops;
    } else {
      AnswersPrefix(ops, n + 1);
      assert ops[..n + 1] == ops[..n] + [ops[n]];
      AnswersStep(ops[..n], ops[n]);
    }
  }

  lemma {:induction false} UncollectedConcat(a: seq<Op>, b: seq<Op>)
    ensures Uncollected(a + b) == Uncollected(a) + Uncollected(b)
  {
    hide Uncollected;
    NothingUncollected();
    if b == [] {
      assert a + b == a;
    } else {
      var front, op := b[..|b| - 1], b[|b| - 1];
      UncollectedConcat(a, front);
      assert a + b == (a + front) + [op];
      UncollectedAppend(a + front, op);
      assert b == front + [op];
      UncollectedAppend(front, op);
    }
  }

  /** The run `allows` with a cleanup just before call `k`. */
  function WithCleanup(allows: seq<Op>, k: nat): seq<Op>
    requires k < |allows|
  {
    allows[..k] + [Cleanup(allows[k].now)] + allows[k..]
  }

  lemma WithCleanupOrdered(allows: seq<Op>, k: nat)
    requires Ordered(allows) && k < |allows|
    ensures Ordered(WithCleanup(allows, k))
  {
    var ops := WithCleanup(allows, k);
    assert forall i :: 0 <= i < |ops| ==> ops[i].now == (if i <= k then allows[i] else allows[i - 1]).now;
  }

  lemma WithCleanupPrefix(allows: seq<Op>, k: nat)
    requires k < |allows|
    ensures |WithCleanup(allows, k)| == |allows| + 1
    ensures WithCleanup(allows, k)[..k + 2] == allows[..k] + [Cleanup(allows[k].now)] + [allows[k]]
    ensures allows[..k + 1] == allows[..k] + [allows[k]]
  {
  }

  lemma WithCleanupSame(allows: seq<Op>, k: nat)
    requires Uncollected(allows) == allows && k < |allows|
    ensures Uncollected(WithCleanup(allows, k)) == allows
  {
    hide Uncollected;
    var front, c := allows[..k], Cleanup(allows[k].now);
    UncollectedAppend(front, c);
    UncollectedConcat(front + [c], allows[k..]);
    UncollectedConcat(front, allows[k..]);
    assert allows == front + allows[k..];
  }

  lemma CleanupFirst(front: seq<Op>, op: Op)
    requires Ordered(front) && (front != [] ==> front[|front| - 1].now <= op.now)
    requires op.Allow? && !Exact(After(front), op.ip, op.now)
    ensures Answers(front + [op]) == Answers(front) + [false]
    ensures Answers(front + [Cleanup(op.now)] + [op]) == Answers(front) + [true]
  {
    hide Allowed, Exact, Collected, After, Answers;
    SaneAfter(front, op.now);
    DropSeen(After(front), op.ip, op.now);
    AfterStep(front, Cleanup(op.now));
    AnswersStep(front, Cleanup(op.now));
    AnswersStep(front + [Cleanup(op.now)], op);
    AnswersStep(front, op);
  }

  /** A schedule in which the overflow at call `k` is seen. */
  lemma CollectionSeen(allows: seq<Op>, k: nat)
    requires Ordered(allows) && Uncollected(allows) == allows && k < |allows|
    requires !Exact(After(allows[..k]), allows[k].ip, allows[k].now)
    ensures Answers(WithCleanup(allows, k)) != Answers(allows)
  {
    hide Exact, After, Answers, Uncollected, WithCleanup;
    var op, front := allows[k], allows[..k];
    var ops := WithCleanup(allows, k);
    assert op.Allow? by { assert Uncollected(allows)[k] == op; }
    CleanupFirst(front, op);
    WithCleanupPrefix(allows, k);
    AnswersPrefix(allows, k + 1);
    AnswersPrefix(ops, k + 2);
    LastDiffers(Answers(front), false, true, Answers(allows), Answers(ops));
  }

  lemma LastDiffers(s: seq<bool>, x: bool, y: bool, a: seq<bool>, b: seq<bool>)
    requires s + [x] <= a && s + [y] <= b && x != y
    ensures a != b
  {
    assert a[|s|] == (s + [x])[|s|] && b[|s|] == (s + [y])[|s|];
  }

  lemma NothingUncollected()
    ensures Uncollected([]) == []
  {
  }

  /** Garbage collection cannot be observed, whatever its schedule, exactly if no sum overflows. */
  lemma CollectionUnobservable(allows: seq<Op>)
    requires Ordered(allows) && Uncollected(allows) == allows
    ensures NeverAway(allows) <==>
      forall ops: seq<Op> :: Ordered(ops) && Uncollected(ops) == allows ==> Answers(ops) == Answers(allows)
  {
    hide Exact, After, Answers, Uncollected;
    if NeverAway(allows) {
      forall ops: seq<Op> | Ordered(ops) && Uncollected(ops) == allows ensures Answers(ops) == Answers(allows) {
        SameCalls(ops);
        CollectionHidden(ops, if ops == [] then 0 else ops[|ops| - 1].now);
      }
    } else {
      var k := FirstOverflow(allows);
      WithCleanupOrdered(allows, k);
      WithCleanupSame(allows, k);
      CollectionSeen(allows, k);
    }
  }

  /** Two packets of one address, 2^63 - 1 nanoseconds apart: the second passes only if its entry was collected. */
  lemma AwayTooLong()
    ensures var calls := [Allow(1, 0), Allow(1, MAX64)];
      && Ordered(calls) && Uncollected(calls) == calls && !NeverAway(calls)
      && Answers(calls) == [true, false]
      && Answers([Allow(1, 0), Cleanup(MAX64), Allow(1, MAX64)]) == [true, true]
  {
    var first, second, clean := Allow(1, 0), Allow(1, MAX64), Cleanup(MAX64);
    assert [] + [first] == [first] && [first] + [second] == [first, second];
    assert [first] + [clean] == [first, clean] && [first, clean] + [second] == [first, clean, second];
    AfterStep([], first);
    AnswersStep([], first);
    AnswersStep([first], second);
    AfterStep([first], clean);
    AnswersStep([first], clean);
    AnswersStep([first, clean], second);
    UncollectedAppend([], first);
    UncollectedAppend([first], second);
    assert [first, second][..1] == [first];
  }

  /** Whether a sum overflows depends on the calls alone. */
  lemma {:induction false} SameCalls(ops: seq<Op>)
    requires NeverAway(Uncollected(ops))
    ensures NeverAway(ops)
  {
    hide Exact, After;
    if ops == [] {
    } else {
      var front, op := ops[..|ops| - 1], ops[|ops| - 1];
      UncollectedTwice(front);
      assert ops == front + [op];
      UncollectedAppend(front, op);
      assert op.Allow? ==> Uncollected(ops)[..|Uncollected(front)|] == Uncollected(front);
      hide Uncollected;
      SameCalls(front);
    }
  }

  lemma {:induction false} UncollectedTwice(ops: seq<Op>)
    ensures Uncollected(Uncollected(ops)) == Uncollected(ops)
  {
    if ops == [] {
    } else {
      var front, op := ops[..|ops| - 1], ops[|ops| - 1];
      UncollectedTwice(front);
      assert ops == front + [op];
      UncollectedAppend(front, op);
      UncollectedAppend(Uncollected(front), op);
    }
  }

  lemma {:induction false} FirstOverflow(allows: seq<Op>) returns (k: nat)
    requires Uncollected(allows) == allows && !NeverAway(allows)
    ensures k < |allows| && !Exact(After(allows[..k]), allows[k].ip, allows[k].now)
  {
    hide Exact, After;
    var n := |allows| - 1;
    var front := allows[..n];
    assert Uncollected(front) == front by {
      assert allows[n] in allows && allows[n].Allow?;
      assert Uncollected(allows)[..|Uncollected(front)|] == Uncollected(front);
    }
    if NeverAway(front) {
      k := n;
    } else {
      k := FirstOverflow(front);
      assert front[..k] == allows[..k];
    }
  }

  // ----- The rate

  /** What an address could have at most, whatever garbage collection did. */
  ghost function Potential(t: Table, ip: Addr, now: int): int {
    if ip !in t then MAX_TOKENS
    else
      var tokens := (if t[ip].tokens > 0 then t[ip].tokens else 0) + (now - t[ip].lastTime);
      if tokens > MAX_TOKENS then MAX_TOKENS else tokens
  }

  /** The packets of `ip` allowed by operations `i` to `j`. */
  ghost function Count(ops: seq<Op>, ip: Addr, i: nat, j: nat): nat
    requires i <= j <= |ops|
  {
    if i == j then 0
    else Count(ops, ip, i, j - 1) + if ops[j - 1].Allow? && ops[j - 1].ip == ip && Allowed(After(ops[..j - 1]), ip, ops[j - 1].now) then 1 else 0
  }

  lemma {:induction false} PotentialBound(ops: seq<Op>, ip: Addr, i: nat, j: nat)
    requires Ordered(ops) && i < j <= |ops|
    ensures Potential(After(ops[..j]), ip, ops[j - 1].now) <= MAX_TOKENS + (ops[j - 1].now - ops[i].now) - PACKET_COST * Count(ops, ip, i, j)
    ensures PACKET_COST * Count(ops, ip, i, j) < MAX_TOKENS + (ops[j - 1].now - ops[i].now)
  {
    hide After, Step, Potential, Allowed, Sane;
    var t, op := After(ops[..j - 1]), ops[j - 1];
    assert ops[..j] == ops[..j - 1] + [op];
    AfterStep(ops[..j - 1], op);
    SaneAfter(ops[..j - 1], op.now);
    PotentialStep(t, ip, op);
    if i < j - 1 {
      PotentialBound(ops, ip, i, j - 1);
      PotentialGrows(t, ip, ops[j - 2].now, op.now);
    } else {
      assert Count(ops, ip, i, i) == 0;
    }
  }

  lemma PotentialGrows(t: Table, ip: Addr, now: int, now': int)
    requires now <= now'
    ensures Potential(t, ip, now') <= Potential(t, ip, now) + (now' - now)
  {
  }

  lemma PotentialStep(t: Table, ip: Addr, op: Op)
    requires Sane(t, op.now)
    ensures var allowed := op.Allow? && op.ip == ip && Allowed(t, ip, op.now);
      && Potential(Step(t, op), ip, op.now) <= Potential(t, ip, op.now) - (if allowed then PACKET_COST else 0)
      && (allowed ==> Potential(t, ip, op.now) > PACKET_COST)
      && Potential(t, ip, op.now) <= MAX_TOKENS
  {
  }

  /** In any stretch of a run one address is let through at most five times plus once per 50 ms. */
  lemma RateBound(ops: seq<Op>, ip: Addr, i: nat, j: nat)
    requires Ordered(ops) && i < j <= |ops|
    ensures Count(ops, ip, i, j) <= 5 + (ops[j - 1].now - ops[i].now) / 50_000_000
  {
    PotentialBound(ops, ip, i, j);
  }
}
