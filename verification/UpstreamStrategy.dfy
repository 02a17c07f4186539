/** Dispatch over several upstream resolvers: rotation, failover and the fairness of round-robin. */
module UpstreamStrategy {
  import opened Basics

  datatype Strategy = RoundRobin | Random | Failover

  datatype ResolveError =
    | Io(detail: string)
    | Timeout
    | Protocol(detail: string)
    | AllFailed
    | WithSource(resolver: string, inner: ResolveError)

  type Outcome = Result<Bytes, ResolveError>

  /** One more than the largest value of the shared counter. */
  const WORD: nat := 0x1_0000_0000_0000_0000

  /** The order in which resolvers are tried from `start`. */
  function Rotation(start: nat, n: nat): seq<nat>
    requires n > 0
  {
    seq(n, i requires 0 <= i < n => (start + i) % n)
  }

  /** `r` is the outcome of trying `tried`, a prefix of the rotation, up to its first success. */
  ghost predicate FirstSuccess(outcomes: seq<Outcome>, start: nat, r: Outcome, tried: seq<nat>)
    requires |outcomes| > 0
  {
    && 0 < |tried| && tried <= Rotation(start, |outcomes|)
    && (forall i :: 0 <= i < |tried| - 1 ==> outcomes[Rotation(start, |outcomes|)[i]].Err?)
    && r == outcomes[Rotation(start, |outcomes|)[|tried| - 1]]
    && (r.Err? ==> |tried| == |outcomes|)
  }

  /** The first resolver a call tries, given the counter it meets and its random draw. */
  function StartOf(strategy: Strategy, counter: nat, n: nat, draw: nat): nat
    requires n > 0
  {
    match strategy
    case RoundRobin => counter % n
    case Random => draw
    case Failover => 0
  }

  /** The counter after one more call: it moves exactly once per round-robin call to a nonempty pool. */
  function CounterAfter(strategy: Strategy, counter: nat, n: nat): nat
    requires counter < WORD
  {
    if strategy == RoundRobin && n > 0 then Next(counter, WORD) else counter
  }

  class StrategyResolver {
    const strategy: Strategy
    var counter: nat

    constructor (strategy: Strategy)
      ensures this.strategy == strategy && counter == 0
    {
      this.strategy := strategy;
      counter := 0;
    }

    /** Where a call starts its rotation; round-robin calls move the shared counter, which wraps at the word size. */
    method ChooseStart(n: nat, draw: nat) returns (start: nat)
      requires n > 0 && counter < WORD && draw < n
      modifies this
      ensures start == StartOf(strategy, old(counter), n, draw) && counter == CounterAfter(strategy, old(counter), n)
    {
      start := 0;
      match strategy {
        case RoundRobin =>
          start := counter % n;
          counter := (counter + 1) % WORD;
        case Random =>
          start := draw;
        case Failover =>
      }
    }

    /** One `resolve`: `outcomes` are what the resolvers would answer, `draw` is the random choice. */
    method Resolve(outcomes: seq<Outcome>, draw: nat) returns (r: Outcome, tried: seq<nat>)
      requires counter < WORD
      requires |outcomes| > 0 ==> draw < |outcomes|
      modifies this
      ensures |outcomes| == 0 ==> r == Err(AllFailed) && tried == []
      ensures |outcomes| > 0 ==> FirstSuccess(outcomes, StartOf(strategy, old(counter), |outcomes|, draw), r, tried)
      ensures counter == CounterAfter(strategy, old(counter), |outcomes|)
      ensures |outcomes| > 0 ==> BeginsAsConfigured(strategy, old(counter), counter, |outcomes|, draw, tried)
      ensures |outcomes| > 0 && strategy == Failover ==> EarliestSuccess(outcomes, r)
    {
      tried := [];
      if |outcomes| == 0 {
        return Err(AllFailed), tried;
      }
      var start := ChooseStart(|outcomes|, draw);
      if strategy == Failover {
        r, tried := TryInOrder(outcomes);
      } else {
        r, tried := TryFrom(outcomes, start);
      }
      StartsWhere(strategy, old(counter), outcomes, draw, r, tried);
    }
  }

  /** Which resolver a call asks first, and what it does to the counter. */
  predicate BeginsAsConfigured(strategy: Strategy, before: nat, after: nat, n: nat, draw: nat, tried: seq<nat>)
    requires n > 0
  {
    && |tried| > 0
    && match strategy
       case RoundRobin => tried[0] == before % n && after == (before + 1) % 0x1_0000_0000_0000_0000
       case Random => tried[0] == draw && after == before
       case Failover => tried[0] == 0 && after == before
  }

  /** The outcome of the first resolver, in configuration order, that succeeds; of the last if none does. */
  ghost predicate EarliestSuccess(outcomes: seq<Outcome>, r: Outcome)
    requires |outcomes| > 0
  {
    if forall i :: 0 <= i < |outcomes| ==> outcomes[i].Err? then r == outcomes[|outcomes| - 1]
    else exists k :: 0 <= k < |outcomes| && r == outcomes[k] && r.Ok? && forall i :: 0 <= i < k ==> outcomes[i].Err?
  }

  lemma StartsWhere(strategy: Strategy, counter: nat, outcomes: seq<Outcome>, draw: nat, r: Outcome, tried: seq<nat>)
    requires |outcomes| > 0 && counter < WORD && draw < |outcomes|
    requires FirstSuccess(outcomes, StartOf(strategy, counter, |outcomes|, draw), r, tried)
    ensures BeginsAsConfigured(strategy, counter, CounterAfter(strategy, counter, |outcomes|), |outcomes|, draw, tried)
    ensures strategy == Failover ==> EarliestSuccess(outcomes, r)
  {
    var n := |outcomes|;
    var start := StartOf(strategy, counter, n, draw);
    assert tried[0] == Rotation(start, n)[0] == (start + 0) % n;
    SmallMod(start, n);
    WrappedNext(counter);
    if strategy == Failover {
      forall i | 0 <= i < n
        ensures Rotation(start, n)[i] == i
      {
        SmallMod(i, n);
      }
      hide Rotation;
      FailoverOrder(outcomes, r, tried);
    }
  }

  lemma WrappedNext(counter: nat)
    requires counter < WORD
    ensures Next(counter, WORD) == (counter + 1) % 0x1_0000_0000_0000_0000
  {
  }

  lemma FailoverOrder(outcomes: seq<Outcome>, r: Outcome, tried: seq<nat>)
    requires |outcomes| > 0 && FirstSuccess(outcomes, 0, r, tried)
    requires forall i :: 0 <= i < |outcomes| ==> Rotation(0, |outcomes|)[i] == i
    ensures EarliestSuccess(outcomes, r)
  {
    var last := |tried| - 1;
    assert |Rotation(0, |outcomes|)| == |outcomes|;
    forall i | 0 <= i < last
      ensures outcomes[i].Err?
    {
      assert outcomes[Rotation(0, |outcomes|)[i]].Err?;
    }
    assert r == outcomes[last];
  }

  method TryFrom(outcomes: seq<Outcome>, start: nat) returns (r: Outcome, tried: seq<nat>)
    requires |outcomes| > 0
    ensures FirstSuccess(outcomes, start, r, tried)
  {
    var n := |outcomes|;
    r, tried := Err(AllFailed), [];
    for i := 0 to n
      invariant tried == Rotation(start, n)[..i]
      invariant forall j :: 0 <= j < i ==> outcomes[Rotation(start, n)[j]].Err?
      invariant i > 0 ==> r == outcomes[Rotation(start, n)[i - 1]]
    {
      var idx := (start + i) % n;
      tried := tried + [idx];
      r := outcomes[idx];
      if r.Ok? {
        return;
      }
    }
  }

  method TryInOrder(outcomes: seq<Outcome>) returns (r: Outcome, tried: seq<nat>)
    requires |outcomes| > 0
    ensures FirstSuccess(outcomes, 0, r, tried)
  {
    r, tried := Err(AllFailed), [];
    for i := 0 to |outcomes|
      invariant tried == Rotation(0, |outcomes|)[..i]
      invariant forall j :: 0 <= j < i ==> outcomes[Rotation(0, |outcomes|)[j]].Err?
      invariant i > 0 ==> r == outcomes[Rotation(0, |outcomes|)[i - 1]]
    {
      assert Rotation(0, |outcomes|)[i] == i by { SmallMod(i, |outcomes|); }
      tried := tried + [i];
      r := outcomes[i];
      if r.Ok? {
        return;
      }
    }
  }

  // ----- A rotation visits every resolver exactly once -----

  lemma SmallMod(a: nat, n: nat)
    requires a < n
    ensures a % n == a
  {
  }

  lemma ModUnique(a: nat, q: nat, r: nat, n: nat)
    requires n > 0 && a == q * n + r && r < n
    ensures a % n == r && a / n == q
  {
    var q', r' := a / n, a % n;
    assert a == q' * n + r';
    assert (q' - q) * n == r - r';
    SmallMultiple(q' - q, r - r', n);
  }

  lemma ScaleUp(s: int, t: int, n: int)
    requires s <= t && n > 0
    ensures s * n <= t * n
  {
  }

  lemma SmallMultiple(t: int, z: int, n: int)
    requires n > 0 && t * n == z && -n < z < 2 * n
    ensures (t == 0 && z == 0) || (t == 1 && z == n)
  {
    if t >= 2 {
      ScaleUp(2, t, n);
    } else if t <= -1 {
      ScaleUp(t, -1, n);
    }
  }

  function Residue(a: nat, n: nat): (r: nat)
    requires n > 0
    ensures r < n
  {
    a % n
  }

  function Quotient(a: nat, n: nat): nat
    requires n > 0
  {
    a / n
  }

  lemma DivMod(a: nat, n: nat)
    requires n > 0
    ensures a == Quotient(a, n) * n + Residue(a, n)
  {
  }

  function Next(p: nat, n: nat): nat
    requires p < n
  {
    if p + 1 == n then 0 else p + 1
  }

  lemma ModStep(c: nat, n: nat)
    requires n > 0
    ensures Residue(c + 1, n) == Next(Residue(c, n), n)
  {
    var q, r := Quotient(c, n), Residue(c, n);
    DivMod(c, n);
    if r + 1 == n {
      assert c + 1 == (q + 1) * n + 0;
      ModUnique(c + 1, q + 1, 0, n);
    } else {
      ModUnique(c + 1, q, r + 1, n);
    }
  }

  /** Position `r` in a rotation that starts at residue `p`. */
  function Distance(p: nat, r: nat, n: nat): nat
    requires p < n && r < n
  {
    if r >= p then r - p else r + n - p
  }

  lemma {:induction false} RotationAt(start: nat, n: nat, i: nat, r: nat)
    requires i < n && r < n
    ensures Residue(start + i, n) == r <==> i == Distance(Residue(start, n), r, n)
    decreases i
  {
    hide Residue;
    if i > 0 {
      ModStep(start + i - 1, n);
      RotationAt(start, n, i - 1, if r == 0 then n - 1 else r - 1);
    }
  }

  /** Every resolver appears in the rotation at exactly one place. */
  lemma RotationVisitsOnce(start: nat, n: nat, r: nat)
    requires r < n
    ensures exists i :: 0 <= i < n && Rotation(start, n)[i] == r
    ensures forall i, j :: 0 <= i < n && 0 <= j < n && Rotation(start, n)[i] == r && Rotation(start, n)[j] == r ==> i == j
  {
    var d := Distance(Residue(start, n), r, n);
    RotationAt(start, n, d, r);
    assert Rotation(start, n)[d] == r;
    forall i | 0 <= i < n && Rotation(start, n)[i] == r
      ensures i == d
    {
      RotationAt(start, n, i, r);
    }
  }

  /**
   For every strategy: no resolver is tried twice, a success is the first in the rotation, and an
   error means every resolver failed and is the one of the last tried.
   */
  lemma DispatchIsSound(outcomes: seq<Outcome>, start: nat, r: Outcome, tried: seq<nat>)
    requires |outcomes| > 0 && FirstSuccess(outcomes, start, r, tried)
    ensures forall i, j :: 0 <= i < j < |tried| ==> tried[i] != tried[j]
    ensures r.Err? <==> forall k :: 0 <= k < |outcomes| ==> outcomes[k].Err?
    ensures tried[|tried| - 1] < |outcomes| && r == outcomes[tried[|tried| - 1]]
    ensures forall i :: 0 <= i < |tried| ==> tried[i] == (start + i) % |outcomes|
  {
    var n := |outcomes|;
    var rot := Rotation(start, n);
    forall i, j | 0 <= i < j < |tried|
      ensures tried[i] != tried[j]
    {
      RotationVisitsOnce(start, n, rot[i]);
      assert tried[i] == rot[i] && tried[j] == rot[j];
    }
    if r.Err? {
      forall k | 0 <= k < n
        ensures outcomes[k].Err?
      {
        RotationVisitsOnce(start, n, k);
        var i :| 0 <= i < n && rot[i] == k;
        assert i < |tried| - 1 || i == |tried| - 1;
      }
    }
  }

  // ----- Round-robin fairness -----

  /** How many of `len` consecutive rotations from residue `p` start at `r`. */
  function Starts(p: nat, len: nat, n: nat, r: nat): nat
    requires p < n
    decreases len
  {
    if len == 0 then 0 else (if p == r then 1 else 0) + Starts(Next(p, n), len - 1, n, r)
  }

  /** The same for consecutive values of the shared counter, which wraps at the word size. */
  function CounterStarts(c: nat, len: nat, n: nat, r: nat): nat
    requires n > 0 && c < WORD
    decreases len
  {
    if len == 0 then 0
    else (if Residue(c, n) == r then 1 else 0) + CounterStarts(Next(c, WORD), len - 1, n, r)
  }

  lemma {:induction false} StartsShort(p: nat, len: nat, n: nat, r: nat)
    requires p < n && r < n && len <= n
    ensures Starts(p, len, n, r) == if Distance(p, r, n) < len then 1 else 0
    decreases len
  {
    if len > 0 {
      StartsShort(Next(p, n), len - 1, n, r);
    }
  }

  lemma {:induction false} StartsPeriodic(p: nat, len: nat, n: nat, r: nat)
    requires p < n && r < n
    ensures Starts(p, len + n, n, r) == Starts(p, len, n, r) + 1
    decreases len
  {
    if len == 0 {
      StartsShort(p, n, n, r);
    } else {
      StartsPeriodic(Next(p, n), len - 1, n, r);
    }
  }

  lemma {:induction false} StartsCount(p: nat, q: nat, m: nat, n: nat, r: nat)
    requires p < n && r < n && m < n
    ensures Starts(p, q * n + m, n, r) == q + if Distance(p, r, n) < m then 1 else 0
    decreases q
  {
    if q == 0 {
      StartsShort(p, m, n, r);
    } else {
      assert q * n + m == ((q - 1) * n + m) + n;
      StartsPeriodic(p, (q - 1) * n + m, n, r);
      StartsCount(p, q - 1, m, n, r);
    }
  }

  /** Up to the wrap, counter values rotate; from the wrap on, the rotation restarts at 0. */
  lemma {:induction false} CounterSplits(c: nat, len: nat, n: nat, r: nat)
    requires n > 0 && c < WORD && len <= WORD
    ensures c + len <= WORD ==> CounterStarts(c, len, n, r) == Starts(Residue(c, n), len, n, r)
    ensures c + len > WORD ==>
              CounterStarts(c, len, n, r) ==
              Starts(Residue(c, n), WORD - c, n, r) + Starts(0, len - (WORD - c), n, r)
    decreases len
  {
    if len > 0 {
      ResidueOfZero(n);
      hide Residue;
      ModStep(c, n);
      CounterSplits(Next(c, WORD), len - 1, n, r);
      if c + 1 == WORD {
        assert Starts(Residue(c, n), 1, n, r) ==
               (if Residue(c, n) == r then 1 else 0) + Starts(Next(Residue(c, n), n), 0, n, r);
      }
    }
  }

  lemma ResidueOfZero(n: nat)
    requires n > 0
    ensures Residue(0, n) == 0
  {
  }

  /** Any k*n consecutive calls that stay below the wrap start at each of n resolvers k times. */
  lemma RoundRobinIsFair(c: nat, k: nat, n: nat, r: nat)
    requires r < n && c < WORD && c + k * n <= WORD
    ensures CounterStarts(c, k * n, n, r) == k
  {
    hide Residue, CounterStarts, Starts;
    CounterSplits(c, k * n, n, r);
    StartsCount(Residue(c, n), k, 0, n, r);
  }

  ghost predicate FairWindow(c: nat, k: nat, n: nat)
    requires n > 0 && c < WORD
  {
    forall r :: 0 <= r < n ==> CounterStarts(c, k * n, n, r) == k
  }

  /**
   Across the wrap, a window of k*n calls is fair exactly when the number of resolvers divides the
   counter's range, or divides the part of the window before the wrap.
   */
  lemma FairAcrossWrapExactlyWhen(c: nat, k: nat, n: nat)
    requires n > 0 && c < WORD && k * n <= WORD && c + k * n > WORD
    ensures FairWindow(c, k, n) <==> WORD % n == 0 || (WORD - c) % n == 0
  {
    assert Residue(WORD, n) == WORD % n && Residue(WORD - c, n) == (WORD - c) % n;
    hide Residue, CounterStarts;
    var p, m := Residue(c, n), Residue(WORD - c, n);
    WrapPosition(c, WORD - c, n);
    forall r | 0 <= r < n
      ensures CounterStarts(c, k * n, n, r) == k <==> (m == 0 || (Distance(p, r, n) < m <==> r >= n - m))
    {
      WindowCount(c, k * n, k, n, r);
    }
    if m != 0 && Residue(WORD, n) != 0 {
      assert Distance(p, 0, n) < m || !(Distance(p, n - 1, n) < m);
    }
  }

  /** A window across the wrap visits `r` k times, once more or once less. */
  lemma WindowCount(c: nat, len: nat, k: nat, n: nat, r: nat)
    requires r < n && c < WORD && len == k * n && len <= WORD < c + len
    ensures var m := Residue(WORD - c, n);
            CounterStarts(c, len, n, r) ==
            if m == 0 then k
            else k - 1 + (if Distance(Residue(c, n), r, n) < m then 1 else 0) + (if r < n - m then 1 else 0)
  {
    hide Residue, Quotient, CounterStarts, Distance;
    var a, b := WORD - c, len - (WORD - c);
    DivMod(a, n);
    DivMod(b, n);
    Remainders(k, Quotient(a, n), Residue(a, n), Quotient(b, n), Residue(b, n), n);
    TwoParts(c, len, n, r, Quotient(a, n), Residue(a, n), Quotient(b, n), Residue(b, n));
    DistanceFromZero(r, n);
  }

  lemma DistanceFromZero(r: nat, n: nat)
    requires r < n
    ensures Distance(0, r, n) == r
  {
  }

  lemma TwoParts(c: nat, len: nat, n: nat, r: nat, qa: nat, ma: nat, qb: nat, mb: nat)
    requires r < n && ma < n && mb < n && c < WORD && len <= WORD < c + len
    requires WORD - c == qa * n + ma && len - (WORD - c) == qb * n + mb
    ensures CounterStarts(c, len, n, r) ==
            qa + qb + (if Distance(Residue(c, n), r, n) < ma then 1 else 0) + (if Distance(0, r, n) < mb then 1 else 0)
  {
    hide Residue, CounterStarts, Starts, Distance;
    CounterSplits(c, len, n, r);
    StartsCount(Residue(c, n), qa, ma, n, r);
    StartsCount(0, qb, mb, n, r);
  }

  lemma Remainders(k: nat, qa: nat, ma: nat, qb: nat, mb: nat, n: nat)
    requires n > 0 && ma < n && mb < n && k * n == (qa * n + ma) + (qb * n + mb)
    ensures if ma == 0 then mb == 0 && qa + qb == k else mb == n - ma && qa + qb == k - 1
  {
    assert (k - qa - qb) * n == ma + mb;
    SmallMultiple(k - qa - qb, ma + mb, n);
  }

  /** Where the rotation stands when the counter wraps. */
  lemma WrapPosition(c: nat, a: nat, n: nat)
    requires n > 0 && c + a == WORD
    ensures var p := Residue(c, n) + Residue(a, n); p == Residue(WORD, n) || p == Residue(WORD, n) + n
  {
    hide Residue, Quotient;
    var qc, qa, qw := Quotient(c, n), Quotient(a, n), Quotient(WORD, n);
    var z := Residue(c, n) + Residue(a, n) - Residue(WORD, n);
    DivMod(c, n);
    DivMod(a, n);
    DivMod(WORD, n);
    assert (qw - qc - qa) * n == z;
    SmallMultiple(qw - qc - qa, z, n);
  }

  /** Three resolvers at the wrap: the next three calls start at 0, 0 and 1. */
  lemma WrapCanBeUnfair()
    ensures !FairWindow(WORD - 1, 1, 3)
  {
    FairAcrossWrapExactlyWhen(WORD - 1, 1, 3);
  }
}
