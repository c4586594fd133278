/** Health-aware round robin in 5. load balancer/theories/lessons/lb.c: picks and health updates
    as atomic steps in any order, and the fairness that survives every schedule. */
module RoundRobin {

  /** The index after c on a ring of n. */
  function Next(n: nat, c: nat): (r: nat)
    requires c < n
    ensures r < n
  {
    if c + 1 == n then 0 else c + 1
  }

  lemma NextIsModulo(n: nat, c: nat)
    requires c < n
    ensures (c + 1) % n == Next(n, c)
  {}

  /** k steps forward from c, at most once around. */
  function Advance(n: nat, c: nat, k: nat): (r: nat)
    requires c < n && k <= n
    ensures r < n
  {
    if c + k < n then c + k else c + k - n
  }

  /** Steps forward from index `from` to index b on a ring of n. */
  function Distance(n: nat, from: nat, b: nat): (d: nat)
    requires from < n && b < n
    ensures d < n
  {
    if b >= from then b - from else b + n - from
  }

  lemma DistanceNext(n: nat, from: nat, b: nat)
    requires from < n && b < n
    ensures b != from ==> Distance(n, Next(n, from), b) == Distance(n, from, b) - 1
    ensures Distance(n, Next(n, from), from) == n - 1
    ensures Distance(n, from, b) == 0 <==> b == from
  {}

  // ----- one pick -----

  /** The loop of pick_healthy with `left` turns to go: the index or -1, and the cursor left. */
  function Scan(healthy: seq<bool>, c: nat, left: nat): (r: (int, nat))
    requires c < |healthy|
    ensures r.1 < |healthy|
    decreases left
  {
    if left == 0 then (-1, c)
    else if healthy[c] then (c, Next(|healthy|, c))
    else Scan(healthy, Next(|healthy|, c), left - 1)
  }

  datatype State = State(healthy: seq<bool>, rr: nat)

  predicate Valid(st: State) {
    if st.healthy == [] then st.rr == 0 else st.rr < |st.healthy|
  }

  /** pick_healthy: a full turn at most. */
  function Pick(st: State): (r: (int, State))
    requires Valid(st)
    ensures Valid(r.1) && r.1.healthy == st.healthy
  {
    if st.healthy == [] then (-1, st)
    else
      var (idx, rr) := Scan(st.healthy, st.rr, |st.healthy|);
      (idx, st.(rr := rr))
  }

  lemma {:induction false} ScanFindsNearest(healthy: seq<bool>, c: nat, left: nat)
    requires c < |healthy| && left <= |healthy|
    ensures var (idx, rr) := Scan(healthy, c, left);
      var n := |healthy|;
      if idx == -1 then
        && (forall b :: 0 <= b < n && healthy[b] ==> Distance(n, c, b) >= left)
        && rr == Advance(n, c, left)
      else
        && 0 <= idx < n && healthy[idx] && rr == Next(n, idx)
        && forall b :: 0 <= b < n && healthy[b] ==> Distance(n, c, idx) <= Distance(n, c, b)
    decreases left
  {
    var n := |healthy|;
    if left > 0 {
      forall b | 0 <= b < n
        ensures b != c ==> Distance(n, Next(n, c), b) == Distance(n, c, b) - 1
        ensures Distance(n, c, b) == 0 <==> b == c
      {
        DistanceNext(n, c, b);
      }
      if !healthy[c] {
        ScanFindsNearest(healthy, Next(n, c), left - 1);
      }
    }
  }

  /** A pick is -1 exactly when no backend is healthy, and then the cursor is where it was;
      otherwise it is the first healthy one from the cursor, which ends just past it. */
  lemma PickIsNearest(st: State)
    requires Valid(st)
    ensures Pick(st).0 == -1 <==> forall b :: 0 <= b < |st.healthy| ==> !st.healthy[b]
    ensures Pick(st).0 == -1 ==> Pick(st).1 == st
    ensures Pick(st).0 != -1 ==>
      var n, idx := |st.healthy|, Pick(st).0;
      && 0 <= idx < n && st.healthy[idx] && Pick(st).1.rr == Next(n, idx)
      && forall b :: 0 <= b < n && st.healthy[b] ==> Distance(n, st.rr, idx) <= Distance(n, st.rr, b)
  {
    if st.healthy != [] {
      var n := |st.healthy|;
      ScanFindsNearest(st.healthy, st.rr, n);
      if Pick(st).0 == -1 {
        forall b | 0 <= b < n ensures !st.healthy[b] {
          assert Distance(n, st.rr, b) < n;
        }
      }
    }
  }

  // ----- schedules -----

  /** The atomic steps under the lock, in whatever order the threads take it. */
  datatype Event = PickOne | Report(backend: nat, up: bool)

  predicate Applicable(es: seq<Event>, n: nat) {
    forall e :: e in es ==> e.Report? ==> e.backend < n
  }

  function After(st: State, e: Event): (r: State)
    requires Valid(st) && (e.Report? ==> e.backend < |st.healthy|)
    ensures Valid(r) && |r.healthy| == |st.healthy|
  {
    match e
    case PickOne => Pick(st).1
    case Report(b, up) => st.(healthy := st.healthy[b := up])
  }

  /** The results of the picks of a schedule, and the state it ends in. */
  function Picks(st: State, es: seq<Event>): (r: seq<int>)
    requires Valid(st) && Applicable(es, |st.healthy|)
    decreases es
  {
    if es == [] then []
    else
      assert es[0] in es;
      (if es[0].PickOne? then [Pick(st).0] else []) + Picks(After(st, es[0]), es[1..])
  }

  function Final(st: State, es: seq<Event>): (r: State)
    requires Valid(st) && Applicable(es, |st.healthy|)
    ensures Valid(r) && |r.healthy| == |st.healthy|
    decreases es
  {
    if es == [] then st
    else
      assert es[0] in es;
      Final(After(st, es[0]), es[1..])
  }

  /** Backend b is up at the start and no report of the schedule says otherwise. */
  predicate StaysUp(st: State, es: seq<Event>, b: nat) {
    && b < |st.healthy| && st.healthy[b]
    && forall e :: e in es ==> e.Report? && e.backend == b ==> e.up
  }

  lemma StaysUpAfter(st: State, es: seq<Event>, b: nat)
    requires Valid(st) && Applicable(es, |st.healthy|) && es != [] && StaysUp(st, es, b)
    ensures Applicable(es[1..], |st.healthy|) && es[0] in es
    ensures StaysUp(After(st, es[0]), es[1..], b)
  {}

  function Occurrences(b: nat, picks: seq<int>): nat {
    if picks == [] then 0 else (if picks[0] == b then 1 else 0) + Occurrences(b, picks[1..])
  }

  // ----- what picks and reports have to do with each other -----

  /** What was last reported of backend b, or what it was at first. */
  predicate LastUp(healthy: seq<bool>, es: seq<Event>, b: nat)
    requires b < |healthy|
  {
    if es == [] then healthy[b]
    else
      var e := es[|es| - 1];
      if e == Report(b, true) then true
      else if e == Report(b, false) then false
      else LastUp(healthy, es[..|es| - 1], b)
  }

  lemma {:induction false} FinalLast(st: State, es: seq<Event>, e: Event)
    requires Valid(st) && Applicable(es + [e], |st.healthy|)
    ensures e in es + [e] && Applicable(es, |st.healthy|)
    ensures Final(st, es + [e]) == After(Final(st, es), e)
    decreases es
  {
    assert e in es + [e];
    forall d | d in es ensures d in es + [e] {}
    if es == [] {
      assert es + [e] == [e];
      assert Final(st, [e]) == Final(After(st, e), []);
    } else {
      assert es[0] in es;
      assert (es + [e])[1..] == es[1..] + [e];
      forall d | d in es[1..] + [e] ensures d in es + [e] {}
      FinalLast(After(st, es[0]), es[1..], e);
    }
  }

  /** The health a schedule leaves is what was last reported. */
  lemma {:induction false} HealthIsLastReport(st: State, es: seq<Event>, b: nat)
    requires Valid(st) && Applicable(es, |st.healthy|) && b < |st.healthy|
    ensures Final(st, es).healthy[b] == LastUp(st.healthy, es, b)
    decreases |es|
  {
    if es != [] {
      var n := |es| - 1;
      assert es == es[..n] + [es[n]];
      FinalLast(st, es[..n], es[n]);
      HealthIsLastReport(st, es[..n], b);
    }
  }

  lemma {:induction false} PicksSplit(st: State, es: seq<Event>, fs: seq<Event>)
    requires Valid(st) && Applicable(es + fs, |st.healthy|)
    ensures Applicable(es, |st.healthy|) && Applicable(fs, |st.healthy|)
    ensures Picks(st, es + fs) == Picks(st, es) + Picks(Final(st, es), fs)
    decreases es
  {
    forall d | d in es || d in fs ensures d in es + fs {}
    if es == [] {
      assert es + fs == fs;
    } else {
      assert (es + fs)[1..] == es[1..] + fs && es[0] in es;
      forall d | d in es[1..] + fs ensures d in es + fs {}
      PicksSplit(After(st, es[0]), es[1..], fs);
    }
  }

  /** A pick made after the events es: -1 exactly when every backend was last reported down, and
      otherwise a backend last reported up. */
  predicate Follows(healthy: seq<bool>, es: seq<Event>, pick: int) {
    && (pick == -1 || (0 <= pick < |healthy| && LastUp(healthy, es, pick)))
    && (pick == -1 ==> forall b :: 0 <= b < |healthy| ==> !LastUp(healthy, es, b))
  }

  lemma PickFollows(st: State, es: seq<Event>)
    requires Valid(st) && Applicable(es, |st.healthy|)
    ensures Follows(st.healthy, es, Pick(Final(st, es)).0)
  {
    var now := Final(st, es);
    PickIsNearest(now);
    forall b | 0 <= b < |st.healthy| ensures LastUp(st.healthy, es, b) == now.healthy[b] {
      HealthIsLastReport(st, es, b);
    }
    if Pick(now).0 == -1 {
      forall b | 0 <= b < |st.healthy| ensures !LastUp(st.healthy, es, b) {
        assert !now.healthy[b];
      }
    }
  }

  /** Under every schedule, each pick follows the reports before it. */
  lemma {:induction false} PicksFollowReports(st: State, es: seq<Event>, more: seq<Event>)
    requires Valid(st) && Applicable(es + [PickOne] + more, |st.healthy|)
    ensures Applicable(es, |st.healthy|)
    ensures var picks, k := Picks(st, es + [PickOne] + more), |Picks(st, es)|;
      k < |picks| && Follows(st.healthy, es, picks[k])
  {
    assert es + [PickOne] + more == es + ([PickOne] + more);
    PicksSplit(st, es, [PickOne] + more);
    assert Picks(Final(st, es), [PickOne] + more)[0] == Pick(Final(st, es)).0;
    PickFollows(st, es);
  }

  // ----- bounded bypass -----

  /** While a healthy backend waits, a pick of another comes before it on the ring and leaves it
      that much nearer. */
  lemma PickApproaches(st: State, a: nat)
    requires Valid(st) && a < |st.healthy| && st.healthy[a] && Pick(st).0 != a
    ensures var n, idx := |st.healthy|, Pick(st).0;
      && 0 <= idx < n && Distance(n, st.rr, idx) < Distance(n, st.rr, a)
      && Distance(n, Pick(st).1.rr, a) == Distance(n, st.rr, a) - Distance(n, st.rr, idx) - 1
  {
    PickIsNearest(st);
    var n, idx := |st.healthy|, Pick(st).0;
    DistanceNext(n, idx, a);
  }

  /** From cursor rr, the picks made while `a` waits are different backends, all between the
      cursor and a. */
  ghost predicate Bypass(n: nat, rr: nat, a: nat, picks: seq<int>)
    requires rr < n && a < n
  {
    && (forall i :: 0 <= i < |picks| ==> 0 <= picks[i] < n && Distance(n, rr, picks[i]) < Distance(n, rr, a))
    && (forall i, j :: 0 <= i < j < |picks| ==> picks[i] != picks[j])
    && |picks| <= Distance(n, rr, a)
  }

  lemma BypassExtends(n: nat, rr: nat, a: nat, idx: nat, later: seq<int>)
    requires rr < n && a < n && idx < n && Distance(n, rr, idx) < Distance(n, rr, a)
    requires Bypass(n, Next(n, idx), a, later)
    ensures Bypass(n, rr, a, [idx] + later)
  {
    DistanceNext(n, idx, a);
    forall i | 0 <= i < |later|
      ensures later[i] != idx && Distance(n, rr, later[i]) < Distance(n, rr, a)
    {
      DistanceNext(n, idx, later[i]);
    }
  }

  lemma {:induction false} PicksBypass(st: State, es: seq<Event>, a: nat)
    requires Valid(st) && Applicable(es, |st.healthy|) && StaysUp(st, es, a)
    requires a !in Picks(st, es)
    ensures Bypass(|st.healthy|, st.rr, a, Picks(st, es))
    decreases es
  {
    if es != [] {
      StaysUpAfter(st, es, a);
      var next := After(st, es[0]);
      PicksBypass(next, es[1..], a);
      if es[0].PickOne? {
        assert Picks(st, es) == [Pick(st).0] + Picks(next, es[1..]);
        assert Picks(st, es)[0] == Pick(st).0;
        PickApproaches(st, a);
        PickIsNearest(st);
        BypassExtends(|st.healthy|, st.rr, a, Pick(st).0, Picks(next, es[1..]));
      }
    }
  }

  lemma {:induction false} NotPicked(b: int, picks: seq<int>)
    ensures b >= 0 ==> (Occurrences(b, picks) == 0 <==> b !in picks)
  {
    if picks != [] && b >= 0 {
      NotPicked(b, picks[1..]);
      assert picks == [picks[0]] + picks[1..];
    }
  }

  lemma {:induction false} DistinctOccurOnce(b: nat, picks: seq<int>)
    requires forall i, j :: 0 <= i < j < |picks| ==> picks[i] != picks[j]
    ensures Occurrences(b, picks) <= 1
  {
    if picks != [] {
      DistinctOccurOnce(b, picks[1..]);
      NotPicked(b, picks[1..]);
    }
  }

  /** Bounded bypass, under any interleaving with health reports: while a backend that stays up
      is not picked, every other backend is picked at most once, and no pick fails. */
  lemma BoundedBypass(st: State, es: seq<Event>, a: nat, b: nat)
    requires Valid(st) && Applicable(es, |st.healthy|) && StaysUp(st, es, a)
    requires a !in Picks(st, es)
    ensures Occurrences(b, Picks(st, es)) <= 1
    ensures -1 !in Picks(st, es) && |Picks(st, es)| < |st.healthy|
  {
    PicksBypass(st, es, a);
    DistinctOccurOnce(b, Picks(st, es));
  }

  /** So a backend that stays up is picked at least once in any |backends| picks. */
  lemma {:induction false} NoStarvation(st: State, es: seq<Event>, a: nat)
    requires Valid(st) && Applicable(es, |st.healthy|) && StaysUp(st, es, a)
    requires |Picks(st, es)| >= |st.healthy|
    ensures a in Picks(st, es)
  {
    if a !in Picks(st, es) {
      BoundedBypass(st, es, a, a);
    }
  }

  // ----- balance -----

  /** 1 when a comes before b from the cursor. */
  function Ahead(st: State, a: nat, b: nat): int
    requires Valid(st) && a < |st.healthy| && b < |st.healthy|
  {
    if Distance(|st.healthy|, st.rr, a) < Distance(|st.healthy|, st.rr, b) then 1 else 0
  }

  lemma PickConserves(st: State, a: nat, b: nat)
    requires Valid(st) && a < |st.healthy| && b < |st.healthy| && a != b
    requires st.healthy[a] && st.healthy[b]
    ensures var (idx, next) := Pick(st);
      Ahead(st, a, b) - Ahead(next, a, b) == (if idx == a then 1 else 0) - (if idx == b then 1 else 0)
  {
    PickIsNearest(st);
    DistanceNext(|st.healthy|, Pick(st).0, a);
    DistanceNext(|st.healthy|, Pick(st).0, b);
  }

  /** Over any schedule, how far two backends that stay up drift apart in picks is exactly the
      change in which of them is next. */
  lemma {:induction false} BalanceConserved(st: State, es: seq<Event>, a: nat, b: nat)
    requires Valid(st) && Applicable(es, |st.healthy|) && a != b
    requires StaysUp(st, es, a) && StaysUp(st, es, b)
    ensures Occurrences(a, Picks(st, es)) - Occurrences(b, Picks(st, es))
         == Ahead(st, a, b) - Ahead(Final(st, es), a, b)
    decreases es
  {
    if es != [] {
      StaysUpAfter(st, es, a);
      StaysUpAfter(st, es, b);
      var next := After(st, es[0]);
      BalanceConserved(next, es[1..], a, b);
      if es[0].PickOne? {
        PickConserves(st, a, b);
        assert Picks(st, es) == [Pick(st).0] + Picks(next, es[1..]);
        assert Picks(st, es)[1..] == Picks(next, es[1..]);
      } else {
        assert Picks(st, es) == Picks(next, es[1..]);
      }
    }
  }

  /** So their counts never differ by more than one, whatever happens to the others. */
  lemma Balanced(st: State, es: seq<Event>, a: nat, b: nat)
    requires Valid(st) && Applicable(es, |st.healthy|)
    requires StaysUp(st, es, a) && StaysUp(st, es, b)
    ensures -1 <= Occurrences(a, Picks(st, es)) - Occurrences(b, Picks(st, es)) <= 1
  {
    if a != b {
      BalanceConserved(st, es, a, b);
    }
  }

  // ----- agreement with the plain rotation -----

  /** What next_backend returns over k calls from counter i. */
  function Rotation(n: nat, i: nat, k: nat): (r: seq<int>)
    requires i < n
    decreases k
  {
    if k == 0 then [] else [i] + Rotation(n, Next(n, i), k - 1)
  }

  predicate AllUp(st: State, es: seq<Event>) {
    && (forall b :: 0 <= b < |st.healthy| ==> st.healthy[b])
    && (forall e :: e in es ==> e.Report? ==> e.up)
  }

  /** While every backend stays up, the picks of any schedule are the plain rotation. */
  lemma {:induction false} AllUpRotates(st: State, es: seq<Event>)
    requires Valid(st) && st.healthy != [] && Applicable(es, |st.healthy|) && AllUp(st, es)
    ensures Picks(st, es) == Rotation(|st.healthy|, st.rr, |Picks(st, es)|)
    decreases es
  {
    if es != [] {
      assert es[0] in es;
      var next := After(st, es[0]);
      AllUpRotates(next, es[1..]);
      if es[0].PickOne? {
        assert Picks(st, es) == [st.rr] + Picks(next, es[1..]);
      } else {
        assert Picks(st, es) == Picks(next, es[1..]);
      }
    }
  }

  // ----- the code -----

  /** The state shared under the lock. */
  class Balancer {
    const healthy: array<bool>
    var rr: nat

    ghost predicate Sound()
      reads this, healthy
    {
      Valid(View())
    }

    ghost function View(): State
      reads this, healthy
    {
      State(healthy[..], rr)
    }

    constructor (n: nat)
      ensures Sound() && fresh(healthy) && rr == 0
      ensures healthy.Length == n
    {
      healthy := new bool[n];
      rr := 0;
    }

    /** pick_healthy. */
    method PickHealthy() returns (idx: int)
      requires Sound()
      modifies this
      ensures Sound() && (idx, View()) == Pick(old(View()))
    {
      idx := -1;
      var n := healthy.Length;
      ghost var goal := if n == 0 then (-1, rr) else Scan(healthy[..], rr, n);
      for t := 0 to n
        invariant Sound() && idx == -1
        invariant n > 0 ==> Scan(healthy[..], rr, n - t) == goal
        invariant n == 0 ==> rr == old(rr)
      {
        var c := rr;
        NextIsModulo(n, c);
        rr := (rr + 1) % n;
        if healthy[c] {
          idx := c;
          break;
        }
      }
    }

    /** The write under the lock in health_loop. */
    method SetHealth(backend: nat, up: bool)
      requires Sound() && backend < healthy.Length
      modifies healthy
      ensures Sound() && View() == After(old(View()), Report(backend, up))
      ensures healthy[..] == old(healthy[..])[backend := up] && rr == old(rr)
    {
      healthy[backend] := up;
    }
  }

  /** next_backend of lesson5_roundrobin.c. */
  class Rotator {
    const n: nat
    var i: nat

    ghost predicate Sound()
      reads this
    {
      i < n
    }

    constructor (n: nat)
      requires n > 0
      ensures Sound() && this.n == n && i == 0
    {
      this.n := n;
      i := 0;
    }

    method NextBackend() returns (chosen: nat)
      requires Sound()
      modifies this
      ensures Sound() && chosen == old(i) && i == Next(n, old(i))
    {
      chosen := i;
      NextIsModulo(n, i);
      i := (i + 1) % n;
    }

    /** k turns of the accept loop, each asking for one backend. */
    method Serve(k: nat) returns (chosen: seq<int>)
      requires Sound()
      modifies this
      ensures Sound() && chosen == Rotation(n, old(i), k)
    {
      chosen := [];
      ghost var start := i;
      for t := 0 to k
        invariant Sound()
        invariant chosen + Rotation(n, i, k - t) == Rotation(n, start, k)
      {
        assert Rotation(n, i, k - t) == [i as int] + Rotation(n, Next(n, i), k - t - 1);
        var c := NextBackend();
        chosen := chosen + [c];
      }
    }
  }
}
