/**
 Replay protection as a protocol (RFC 9449, sections 4.3 and 11.1): many requests share one store.
 A request first checks that its proof's `iat` is recent, on the wall clock truncated to whole seconds,
 and later marks the proof's `jti` in the store, on the sub-second monotonic clock, having taken the
 store's lock before it sampled that clock. Clock ticks and the steps of other requests come between
 any two steps. The two clocks advance in lockstep: the wall clock is the monotonic one plus a constant.

 A request whose token is not bound to a key has its proof marked without the freshness check
 (src/verifier.rs, `check_replay` against `must_dpop`); such a request is not `validated`.
 */
module ReplayProtocol {
  import opened Wrappers
  import opened Config
  import opened ReplayStore

  type Rid = nat

  datatype Proof = Proof(jti: Jti, iat: int)

  datatype Params = Params(wallOffset: nat, toleranceSecs: nat, ttl: nat, cap: nat, failClosed: bool)

  datatype Phase =
    | Arrived
    | Checked(checkedAt: nat)
    | Holding(checkedAt: nat)
    | Sampled(checkedAt: nat, sampledAt: nat)
    | Finished

  datatype Request = Request(proof: Proof, validated: bool, phase: Phase)

  /** One passage through the store's critical section. */
  datatype Marking = Marking(rid: Rid, proof: Proof, validated: bool, checkedAt: nat, markedAt: nat,
      outcome: MarkOutcome) {
    function Delay(): int { markedAt - checkedAt }
  }

  datatype State = State(
    clock: nat,
    holder: Option<Rid>,
    entries: Entries,
    requests: map<Rid, Request>,
    log: seq<Marking>)

  datatype Step =
    | Tick(ticks: nat)
    | Arrive(rid: Rid, proof: Proof, validated: bool)
    | CheckFresh(rid: Rid)
    | Lock(rid: Rid)
    | Sample(rid: Rid)
    | MarkAndUnlock(rid: Rid)

  /** The last second to have begun on the wall clock. */
  function NowSecs(p: Params, clock: nat): (secs: nat)
    ensures secs * TICKS_PER_SEC <= p.wallOffset + clock < (secs + 1) * TICKS_PER_SEC
  {
    (p.wallOffset + clock) / TICKS_PER_SEC
  }

  /** The symmetric, inclusive window on whole seconds. */
  predicate IsFresh(toleranceSecs: nat, nowSecs: int, iat: int) {
    var window: int := FreshnessWindow(toleranceSecs);
    -window <= nowSecs - iat <= window
  }

  /** Does the request carrying this marking get through the replay gate? */
  predicate Accepted(p: Params, m: Marking) {
    m.outcome == Ok(New) || (m.outcome.Err? && !p.failClosed)
  }

  predicate Enabled(p: Params, s: State, step: Step) {
    match step
    case Tick(_) => true
    case Arrive(rid, _, _) => rid !in s.requests
    case CheckFresh(rid) =>
      && rid in s.requests && s.requests[rid].validated && s.requests[rid].phase.Arrived?
      && IsFresh(p.toleranceSecs, NowSecs(p, s.clock), s.requests[rid].proof.iat)
    case Lock(rid) =>
      && rid in s.requests && s.holder.None?
      && (if s.requests[rid].validated then s.requests[rid].phase.Checked? else s.requests[rid].phase.Arrived?)
    case Sample(rid) => rid in s.requests && s.requests[rid].phase.Holding?
    case MarkAndUnlock(rid) => rid in s.requests && s.requests[rid].phase.Sampled?
  }

  function Apply(p: Params, s: State, step: Step): State
    requires Enabled(p, s, step)
  {
    match step
    case Tick(ticks) => s.(clock := s.clock + ticks)
    case Arrive(rid, proof, validated) => s.(requests := s.requests[rid := Request(proof, validated, Arrived)])
    case CheckFresh(rid) => s.(requests := s.requests[rid := s.requests[rid].(phase := Checked(s.clock))])
    case Lock(rid) =>
      var r := s.requests[rid];
      var at := if r.validated then r.phase.checkedAt else s.clock;
      s.(holder := Some(rid), requests := s.requests[rid := r.(phase := Holding(at))])
    case Sample(rid) =>
      var r := s.requests[rid];
      s.(requests := s.requests[rid := r.(phase := Sampled(r.phase.checkedAt, s.clock))])
    case MarkAndUnlock(rid) =>
      var r := s.requests[rid];
      var (outcome, entries) := LazyMark(s.entries, p.cap, r.proof.jti, p.ttl, r.phase.sampledAt);
      State(
        s.clock, None, entries, s.requests[rid := r.(phase := Finished)],
        s.log + [Marking(rid, r.proof, r.validated, r.phase.checkedAt, r.phase.sampledAt, outcome)])
  }

  function Init(): State {
    State(0, None, map[], map[], [])
  }

  /** The state a schedule leads to, or `None` when some step of it was not possible. */
  function Execute(p: Params, s: State, schedule: seq<Step>): Option<State>
    decreases |schedule|
  {
    if schedule == [] then Some(s)
    else if Enabled(p, s, schedule[0]) then Execute(p, Apply(p, s, schedule[0]), schedule[1..])
    else None
  }

  ghost predicate Reachable(p: Params, s: State) {
    exists schedule: seq<Step> :: Execute(p, Init(), schedule) == Some(s)
  }

  // ---------------------------------------------------------------------------------------------
  // What every step keeps
  // ---------------------------------------------------------------------------------------------

  function OpsOf(p: Params, log: seq<Marking>): (ops: seq<Op>)
    ensures |ops| == |log|
    ensures forall k :: 0 <= k < |log| ==> ops[k] == Mark(log[k].proof.jti, p.ttl, log[k].markedAt)
  {
    seq(|log|, k requires 0 <= k < |log| => Mark(log[k].proof.jti, p.ttl, log[k].markedAt))
  }

  function AnswersOf(log: seq<Marking>): (answers: seq<Answer>)
    ensures |answers| == |log|
    ensures forall k :: 0 <= k < |log| ==> answers[k] == Marked(log[k].outcome)
  {
    seq(|log|, k requires 0 <= k < |log| => Marked(log[k].outcome))
  }

  /** Markings left the critical section in the order of the times they had sampled. */
  ghost predicate SampledInLockOrder(log: seq<Marking>) {
    forall i, k :: 0 <= i < k < |log| ==> log[i].markedAt <= log[k].markedAt
  }

  /** The lock is held by exactly the requests that are inside, and what they saw of the clock is past. */
  ghost predicate LockInv(s: State) {
    && (forall rid :: rid in s.requests && (s.requests[rid].phase.Holding? || s.requests[rid].phase.Sampled?) ==>
          s.holder == Some(rid))
    && (forall rid :: rid in s.requests && s.requests[rid].phase.Sampled? ==>
          s.requests[rid].phase.sampledAt <= s.clock && forall k :: 0 <= k < |s.log| ==>
              s.log[k].markedAt <= s.requests[rid].phase.sampledAt)
    && (forall k :: 0 <= k < |s.log| ==> s.log[k].markedAt <= s.clock)
    && SampledInLockOrder(s.log)
  }

  predicate PastCheck(phase: Phase) {
    phase.Checked? || phase.Holding? || phase.Sampled?
  }

  /** A validated request past its check was fresh at the instant it remembers, which is past. */
  ghost predicate FreshInv(p: Params, s: State) {
    && (forall rid :: rid in s.requests && s.requests[rid].validated && PastCheck(s.requests[rid].phase) ==>
          && s.requests[rid].phase.checkedAt <= s.clock
          && IsFresh(p.toleranceSecs, NowSecs(p, s.requests[rid].phase.checkedAt), s.requests[rid].proof.iat))
    && (forall rid :: rid in s.requests && s.requests[rid].validated && s.requests[rid].phase.Sampled? ==>
          s.requests[rid].phase.checkedAt <= s.requests[rid].phase.sampledAt)
    && (forall k :: 0 <= k < |s.log| && s.log[k].validated ==>
          && s.log[k].checkedAt <= s.log[k].markedAt
          && IsFresh(p.toleranceSecs, NowSecs(p, s.log[k].checkedAt), s.log[k].proof.iat))
  }

  /** The store is what the logged markings, in log order, make of an empty one. */
  ghost predicate StoreInv(p: Params, s: State) {
    RunLazy(map[], p.cap, OpsOf(p, s.log)) == History(AnswersOf(s.log), s.entries)
  }

  ghost predicate Inv(p: Params, s: State) {
    LockInv(s) && FreshInv(p, s) && StoreInv(p, s)
  }

  lemma LockInvKept(p: Params, s: State, step: Step)
    requires LockInv(s) && Enabled(p, s, step)
    ensures LockInv(Apply(p, s, step))
  {}

  lemma FreshInvKept(p: Params, s: State, step: Step)
    requires FreshInv(p, s) && Enabled(p, s, step)
    ensures FreshInv(p, Apply(p, s, step))
  {}

  lemma StoreInvKept(p: Params, s: State, step: Step)
    requires StoreInv(p, s) && Enabled(p, s, step)
    ensures StoreInv(p, Apply(p, s, step))
  {
    var s' := Apply(p, s, step);
    if step.MarkAndUnlock? {
      var n := |s.log|;
      assert OpsOf(p, s'.log)[..n] == OpsOf(p, s.log);
      assert AnswersOf(s'.log) == AnswersOf(s.log) + [Marked(s'.log[n].outcome)];
    }
  }

  lemma {:induction false} InvAlongSchedule(p: Params, s: State, schedule: seq<Step>)
    requires Inv(p, s) && Execute(p, s, schedule).Some?
    ensures Inv(p, Execute(p, s, schedule).value)
    decreases |schedule|
  {
    if schedule == [] {
    } else {
      LockInvKept(p, s, schedule[0]);
      FreshInvKept(p, s, schedule[0]);
      StoreInvKept(p, s, schedule[0]);
      InvAlongSchedule(p, Apply(p, s, schedule[0]), schedule[1..]);
    }
  }

  /** Every reachable state satisfies the invariant: sampled times follow lock order, the map never outgrows its cap. */
  lemma ReachableInv(p: Params, s: State)
    requires Reachable(p, s)
    ensures Inv(p, s)
    ensures SampledInLockOrder(s.log)
    ensures |s.entries| <= p.cap
  {
    var schedule :| Execute(p, Init(), schedule) == Some(s);
    assert OpsOf(p, []) == [] && AnswersOf([]) == [];
    InvAlongSchedule(p, Init(), schedule);
    BoundHolds(map[], p.cap, OpsOf(p, s.log));
  }

  // ---------------------------------------------------------------------------------------------
  // Safety
  // ---------------------------------------------------------------------------------------------

  /** Two passages let the same validated proof through, the i-th and later the k-th. */
  ghost predicate AcceptedTwice(p: Params, s: State, i: nat, k: nat) {
    && i < k < |s.log| && s.log[i].proof == s.log[k].proof
    && s.log[i].validated && s.log[k].validated
    && Accepted(p, s.log[i]) && Accepted(p, s.log[k])
  }

  /** Two whole-second readings of one window are less than the window's full inclusive width apart. */
  lemma FreshReadingsAreClose(p: Params, a: nat, b: nat, iat: int)
    requires IsFresh(p.toleranceSecs, NowSecs(p, a), iat) && IsFresh(p.toleranceSecs, NowSecs(p, b), iat)
    ensures b - a < ReplayTtl(p.toleranceSecs)
  {
    assert NowSecs(p, b) - NowSecs(p, a) <= 2 * FreshnessWindow(p.toleranceSecs);
  }

  /** The request gets through, and the store has recorded its proof: the only way where it fails closed. */
  predicate Recorded(m: Marking) {
    m.outcome == Ok(New)
  }

  /** Whatever was validated, an acceptance of a proof that was recorded is followed by none for a time-to-live. */
  lemma AcceptancesAreATtlApart(p: Params, s: State, i: nat, k: nat)
    requires Reachable(p, s) && i < k < |s.log| && s.log[i].proof == s.log[k].proof
    requires Recorded(s.log[i]) && Accepted(p, s.log[k])
    ensures s.log[k].markedAt >= s.log[i].markedAt + p.ttl
    ensures p.cap >= 1 || p.ttl == 0
  {
    ReachableInv(p, s);
    var ops := OpsOf(p, s.log);
    assert RunLazy(map[], p.cap, ops).answers == AnswersOf(s.log);
    if p.ttl > 0 {
      Retention(map[], p.cap, ops, i, k);
      AnswerAt(map[], p.cap, ops, i);
      BoundHolds(map[], p.cap, ops[..i]);
      if p.cap == 0 {
        NoRoomNoMark(RunLazy(map[], p.cap, ops[..i]).entries, ops[i]);
        assert false;
      }
    }
  }

  lemma NoRoomNoMark(entries: Entries, op: Op)
    requires |entries| == 0 && op.Mark? && op.ttl > 0
    ensures LazyStep(entries, 0, op).0 == Marked(Err(AtCapacity))
  {
    LiveIsSmaller(entries, op.now);
  }

  /** However long the store remembers, a second acceptance needs the shortfall made up by a longer delay. */
  lemma SecondAcceptanceNeedsDelay(p: Params, s: State, i: nat, k: nat)
    requires Reachable(p, s) && AcceptedTwice(p, s, i, k) && (p.failClosed || Recorded(s.log[i]))
    ensures s.log[k].Delay() - s.log[i].Delay() > p.ttl - ReplayTtl(p.toleranceSecs)
  {
    ReachableInv(p, s);
    AcceptancesAreATtlApart(p, s, i, k);
    FreshReadingsAreClose(p, s.log[i].checkedAt, s.log[k].checkedAt, s.log[i].proof.iat);
  }

  /**
   No double acceptance. With the verifier's time-to-live, on every interleaving: if one proof is
   accepted twice, the first time not merely because the store failed open, then the later request dawdled
   strictly longer between its freshness check and its mark than the earlier one did. So where the store
   fails closed, requests with equal delays accept a proof at most once.
   */
  lemma NoDoubleAcceptance(p: Params, s: State, i: nat, k: nat)
    requires p.ttl == ReplayTtl(p.toleranceSecs)
    requires Reachable(p, s) && AcceptedTwice(p, s, i, k) && (p.failClosed || Recorded(s.log[i]))
    ensures s.log[k].Delay() > s.log[i].Delay()
  {
    SecondAcceptanceNeedsDelay(p, s, i, k);
  }

  // ---------------------------------------------------------------------------------------------
  // Exactness of the time-to-live
  // ---------------------------------------------------------------------------------------------

  /** Some run accepts one proof twice, first with delay `d`, later with delay `e`. */
  ghost predicate MayAcceptTwice(p: Params, d: nat, e: nat) {
    exists s: State, i: nat, k: nat ::
      Reachable(p, s) && AcceptedTwice(p, s, i, k) && s.log[i].Delay() == d && s.log[k].Delay() == e
  }

  lemma {:induction false} ExecuteAppend(p: Params, s: State, a: seq<Step>, b: seq<Step>)
    requires Execute(p, s, a).Some?
    ensures Execute(p, s, a + b) == Execute(p, Execute(p, s, a).value, b)
    decreases |a|
  {
    if a == [] {
      assert a + b == b;
    } else {
      assert (a + b)[1..] == a[1..] + b;
      ExecuteAppend(p, Apply(p, s, a[0]), a[1..], b);
    }
  }

  lemma ReachableStep(p: Params, s: State, step: Step)
    requires Reachable(p, s) && Enabled(p, s, step)
    ensures Reachable(p, Apply(p, s, step))
  {
    var schedule :| Execute(p, Init(), schedule) == Some(s);
    assert Execute(p, s, [step]) == Some(Apply(p, s, step));
    ExecuteAppend(p, Init(), schedule, [step]);
  }

  /** At clock reading `at`, a new request arrives and passes its freshness check. */
  lemma ArriveAndCheck(p: Params, s: State, at: nat, rid: Rid, proof: Proof) returns (s': State)
    requires Reachable(p, s) && s.clock <= at && rid !in s.requests
    requires IsFresh(p.toleranceSecs, NowSecs(p, at), proof.iat)
    ensures Reachable(p, s')
    ensures s' == s.(clock := at, requests := s.requests[rid := Request(proof, true, Checked(at))])
  {
    var s1 := Apply(p, s, Tick(at - s.clock));
    ReachableStep(p, s, Tick(at - s.clock));
    var s2 := Apply(p, s1, Arrive(rid, proof, true));
    ReachableStep(p, s1, Arrive(rid, proof, true));
    s' := Apply(p, s2, CheckFresh(rid));
    ReachableStep(p, s2, CheckFresh(rid));
  }

  /** At clock reading `at`, a checked request goes through the critical section. */
  lemma GoThrough(p: Params, s: State, at: nat, rid: Rid) returns (s': State)
    requires Reachable(p, s) && s.clock <= at && s.holder.None?
    requires rid in s.requests && s.requests[rid].validated && s.requests[rid].phase.Checked?
    ensures Reachable(p, s')
    ensures
      var r := s.requests[rid];
      var (outcome, entries) := LazyMark(s.entries, p.cap, r.proof.jti, p.ttl, at);
      s' == State(at, None, entries, s.requests[rid := r.(phase := Finished)],
                  s.log + [Marking(rid, r.proof, true, r.phase.checkedAt, at, outcome)])
  {
    var s1 := Apply(p, s, Tick(at - s.clock));
    ReachableStep(p, s, Tick(at - s.clock));
    var s2 := Apply(p, s1, Lock(rid));
    ReachableStep(p, s1, Lock(rid));
    var s3 := Apply(p, s2, Sample(rid));
    ReachableStep(p, s2, Sample(rid));
    s' := Apply(p, s3, MarkAndUnlock(rid));
    ReachableStep(p, s3, MarkAndUnlock(rid));
  }

  /** Two requests with one proof, checked at `c0 <= c1` and marked at `m0 <= m1`, in either interleaving. */
  lemma TwoRequests(p: Params, proof: Proof, c0: nat, m0: nat, c1: nat, m1: nat) returns (s: State)
    requires c0 <= c1 && c0 <= m0 && c1 <= m1 && m0 <= m1
    requires IsFresh(p.toleranceSecs, NowSecs(p, c0), proof.iat) && IsFresh(p.toleranceSecs, NowSecs(p, c1), proof.iat)
    ensures Reachable(p, s)
    ensures
      var (first, entries) := LazyMark(map[], p.cap, proof.jti, p.ttl, m0);
      var (second, _) := LazyMark(entries, p.cap, proof.jti, p.ttl, m1);
      s.log == [Marking(0, proof, true, c0, m0, first), Marking(1, proof, true, c1, m1, second)]
  {
    InitIsReachable(p);
    s := ArriveAndCheck(p, Init(), c0, 0, proof);
    if m0 <= c1 {
      s := GoThrough(p, s, m0, 0);
      s := ArriveAndCheck(p, s, c1, 1, proof);
    } else {
      s := ArriveAndCheck(p, s, c1, 1, proof);
      s := GoThrough(p, s, m0, 0);
    }
    s := GoThrough(p, s, m1, 1);
  }

  /** At clock reading `at`, a request whose proof is not validated arrives and goes through the critical section. */
  lemma ArriveUnvalidated(p: Params, s: State, at: nat, rid: Rid, proof: Proof) returns (s': State)
    requires Reachable(p, s) && s.clock <= at && s.holder.None? && rid !in s.requests
    ensures Reachable(p, s')
    ensures
      var (outcome, entries) := LazyMark(s.entries, p.cap, proof.jti, p.ttl, at);
      s' == State(at, None, entries, s.requests[rid := Request(proof, false, Finished)],
                  s.log + [Marking(rid, proof, false, at, at, outcome)])
  {
    var s1 := Apply(p, s, Tick(at - s.clock));
    ReachableStep(p, s, Tick(at - s.clock));
    var s2 := Apply(p, s1, Arrive(rid, proof, false));
    ReachableStep(p, s1, Arrive(rid, proof, false));
    var s3 := Apply(p, s2, Lock(rid));
    ReachableStep(p, s2, Lock(rid));
    assert s3.requests == s.requests[rid := Request(proof, false, Holding(at))];
    var s4 := Apply(p, s3, Sample(rid));
    ReachableStep(p, s3, Sample(rid));
    assert s4.requests == s.requests[rid := Request(proof, false, Sampled(at, at))];
    s' := Apply(p, s4, MarkAndUnlock(rid));
    ReachableStep(p, s4, MarkAndUnlock(rid));
  }

  /** Some run accepts one proof twice, neither time validated, with the marks `gap` ticks apart. */
  ghost predicate MayAcceptUnvalidatedTwice(p: Params, gap: nat) {
    exists s: State, i: nat, k: nat :: Reachable(p, s) && UnvalidatedTwice(p, s, i, k, gap)
  }

  ghost predicate UnvalidatedTwice(p: Params, s: State, i: nat, k: nat, gap: nat) {
    && i < k < |s.log| && s.log[i].proof == s.log[k].proof
    && !s.log[i].validated && !s.log[k].validated
    && Accepted(p, s.log[i]) && Accepted(p, s.log[k])
    && s.log[k].markedAt - s.log[i].markedAt == gap
  }

  /** Two requests that are not validated present one proof, marked `gap` ticks apart. */
  lemma TwoUnvalidated(p: Params, s: State, proof: Proof, gap: nat, rid: Rid) returns (s': State)
    requires Reachable(p, s) && s.holder.None? && rid !in s.requests && rid + 1 !in s.requests
    ensures Reachable(p, s')
    ensures
      var (first, entries) := LazyMark(s.entries, p.cap, proof.jti, p.ttl, s.clock);
      var (second, _) := LazyMark(entries, p.cap, proof.jti, p.ttl, s.clock + gap);
      s'.log == s.log + [Marking(rid, proof, false, s.clock, s.clock, first),
                         Marking(rid + 1, proof, false, s.clock + gap, s.clock + gap, second)]
  {
    s' := ArriveUnvalidated(p, s, s.clock, rid, proof);
    s' := ArriveUnvalidated(p, s', s.clock + gap, rid + 1, proof);
  }

  /**
   Why validation matters: without the freshness check a proof is protected for the time-to-live and no
   longer. Over all runs, two acceptances of one proof can be `gap` ticks apart if and only if the
   time-to-live is over by then and the store can record at all; and always where the store fails open.
   */
  lemma UnvalidatedAcceptedTwiceIff(p: Params, gap: nat)
    ensures MayAcceptUnvalidatedTwice(p, gap) <==>
            (p.failClosed ==> gap >= p.ttl && (p.cap >= 1 || p.ttl == 0))
  {
    if p.failClosed ==> gap >= p.ttl && (p.cap >= 1 || p.ttl == 0) {
      InitIsReachable(p);
      var s := Init();
      if gap < p.ttl {
        s := FillStore(p, Init(), 0, p.cap);
        FreeAt(map[], s.requests, 2 + p.cap);
        FullStoreFails(p, p.cap, 0, 0);
        FullStoreFails(p, p.cap, 0, gap);
      }
      var s' := TwoUnvalidated(p, s, Proof("jti", 0), gap, 2 + p.cap);
      assert UnvalidatedTwice(p, s', |s.log|, |s.log| + 1, gap);
    }
    if MayAcceptUnvalidatedTwice(p, gap) && p.failClosed {
      var s: State, i: nat, k: nat :| Reachable(p, s) && UnvalidatedTwice(p, s, i, k, gap);
      AcceptancesAreATtlApart(p, s, i, k);
    }
  }

  // A full store.

  function FillerJti(n: nat): (jti: Jti)
    ensures |jti| == n && jti != "jti"
  {
    var jti := seq(n, _ => 'x');
    assert n > 0 ==> jti[0] == 'x' && "jti"[0] == 'j';
    jti
  }

  /** What `n` marks of different identifiers at one instant leave behind. */
  ghost function Fillers(p: Params, n: nat, at: nat): (entries: Entries)
    ensures |entries| == n && "jti" !in entries
    ensures forall j :: j in entries ==> entries[j] == at + p.ttl && |j| < n
  {
    if n == 0 then map[] else Fillers(p, n - 1, at)[FillerJti(n - 1) := at + p.ttl]
  }

  lemma NoFillers(p: Params, at: nat)
    ensures Fillers(p, 0, at) == map[]
  {}

  lemma FillOneMore(p: Params, n: nat, at: nat)
    requires n < p.cap && p.ttl > 0
    ensures LazyMark(Fillers(p, n, at), p.cap, FillerJti(n), p.ttl, at) == (Ok(New), Fillers(p, n + 1, at))
  {}

  /** Requests that were there are as they were, and no identifier is in use from `bound` on. */
  ghost predicate OnlyAdds(old': map<Rid, Request>, new': map<Rid, Request>, bound: nat) {
    && (forall rid :: rid in old' ==> rid in new' && new'[rid] == old'[rid])
    && (forall rid :: rid in new' ==> rid < bound)
  }

  lemma AddOne(old': map<Rid, Request>, new': map<Rid, Request>, bound: nat, r: Request)
    requires OnlyAdds(old', new', bound)
    ensures OnlyAdds(old', new'[bound := r], bound + 1)
  {}

  /** At clock reading `at`, requests with `n` different proofs take up as many places of an empty store. */
  lemma {:induction false} FillStore(p: Params, s: State, at: nat, n: nat) returns (s': State)
    requires Reachable(p, s) && s.clock <= at && s.holder.None? && s.entries == map[]
    requires n <= p.cap && p.ttl > 0 && OnlyAdds(s.requests, s.requests, 2)
    ensures Reachable(p, s') && s'.clock == (if n == 0 then s.clock else at)
    ensures s'.holder.None? && s'.entries == Fillers(p, n, at)
    ensures OnlyAdds(s.requests, s'.requests, 2 + n)
    decreases n
  {
    hide *;
    if n == 0 {
      s' := s;
      assert Fillers(p, 0, at) == map[] by { NoFillers(p, at); }
    } else {
      var before := FillStore(p, s, at, n - 1);
      FreeAt(s.requests, before.requests, 1 + n);
      s' := FillNext(p, before, at, n, 1 + n);
      AddOne(s.requests, before.requests, 1 + n, s'.requests[1 + n]);
    }
  }

  lemma FillNext(p: Params, s: State, at: nat, n: nat, rid: Rid) returns (s': State)
    requires Reachable(p, s) && s.clock <= at && s.holder.None? && rid !in s.requests
    requires 0 < n <= p.cap && p.ttl > 0 && s.entries == Fillers(p, n - 1, at)
    ensures Reachable(p, s') && s'.clock == at && s'.holder.None? && s'.entries == Fillers(p, n, at)
    ensures rid in s'.requests && s'.requests == s.requests[rid := s'.requests[rid]]
  {
    hide *;
    FillOneMore(p, n - 1, at);
    s' := ArriveUnvalidated(p, s, at, rid, Proof(FillerJti(n - 1), 0));
  }

  lemma FreeAt(old': map<Rid, Request>, new': map<Rid, Request>, bound: nat)
    requires OnlyAdds(old', new', bound)
    ensures bound !in new' && bound + 1 !in new'
  {}

  /** A store full of live entries fails to mark anything else, and stays as it is. */
  lemma FullStoreFails(p: Params, n: nat, at: nat, now: nat)
    requires n == p.cap && at <= now < at + p.ttl
    ensures LazyMark(Fillers(p, n, at), p.cap, "jti", p.ttl, now) == (Err(AtCapacity), Fillers(p, n, at))
  {
    assert Live(Fillers(p, n, at), now) == Fillers(p, n, at);
  }

  lemma InitIsReachable(p: Params)
    ensures Reachable(p, Init())
  {
    assert Execute(p, Init(), []) == Some(Init());
  }

  /** Ticks from the start of the run to the next start of a wall-clock second. */
  function UntilSecondStarts(p: Params): nat {
    (TICKS_PER_SEC - p.wallOffset % TICKS_PER_SEC) % TICKS_PER_SEC
  }

  /** The proof of the tight run: dated as far into the future as the window admits when a second begins. */
  function EdgeProof(p: Params): Proof {
    Proof("jti", NowSecs(p, UntilSecondStarts(p)) + FreshnessWindow(p.toleranceSecs))
  }

  lemma EdgeProofStaysFresh(p: Params, later: nat)
    requires later < ReplayTtl(p.toleranceSecs)
    ensures IsFresh(p.toleranceSecs, NowSecs(p, UntilSecondStarts(p) + later), EdgeProof(p).iat)
  {
    assert (p.wallOffset + UntilSecondStarts(p)) % TICKS_PER_SEC == 0;
  }

  /** On a store that another client has filled, two requests with one proof are both told it is full. */
  lemma TwoRequestsOnFullStore(p: Params, proof: Proof, c0: nat, m0: nat, c1: nat, m1: nat) returns (s: State, i: nat)
    requires c0 <= c1 <= m0 <= m1 < m0 + p.ttl && proof.jti == "jti"
    requires IsFresh(p.toleranceSecs, NowSecs(p, c0), proof.iat) && IsFresh(p.toleranceSecs, NowSecs(p, c1), proof.iat)
    ensures Reachable(p, s) && |s.log| == i + 2
    ensures s.log[i] == Marking(0, proof, true, c0, m0, Err(AtCapacity))
    ensures s.log[i + 1] == Marking(1, proof, true, c1, m1, Err(AtCapacity))
  {
    InitIsReachable(p);
    s := ArriveAndCheck(p, Init(), c0, 0, proof);
    s := ArriveAndCheck(p, s, c1, 1, proof);
    s := FillStore(p, s, m0, p.cap);
    i := |s.log|;
    FullStoreFails(p, p.cap, m0, m0);
    FullStoreFails(p, p.cap, m0, m1);
    s := GoThrough(p, s, m0, 0);
    s := GoThrough(p, s, m1, 1);
  }

  /** The condition under which some interleaving accepts one proof twice, with delays `d` and then `e`. */
  predicate IsExposed(p: Params, d: nat, e: nat) {
    && d < ReplayTtl(p.toleranceSecs) + e
    && (p.failClosed ==> p.ttl < ReplayTtl(p.toleranceSecs) + e - d && (p.cap >= 1 || p.ttl == 0))
  }

  /** Both marks new, the second after the first has expired. */
  lemma ExposedByExpiry(p: Params, d: nat, e: nat)
    requires p.ttl < ReplayTtl(p.toleranceSecs) + e - d && (p.cap >= 1 || p.ttl == 0 || !p.failClosed)
    ensures MayAcceptTwice(p, d, e)
  {
    var gap := if d + p.ttl >= e then d + p.ttl - e else 0;
    var start, proof := UntilSecondStarts(p), EdgeProof(p);
    EdgeProofStaysFresh(p, 0);
    EdgeProofStaysFresh(p, gap);
    var s := TwoRequests(p, proof, start, start + d, start + gap, start + gap + e);
    assert AcceptedTwice(p, s, 0, 1);
  }

  /** Both marks failing open on a store that is full for as long as it takes. */
  lemma ExposedByFailure(p: Params, d: nat, e: nat)
    requires !p.failClosed && d < ReplayTtl(p.toleranceSecs) + e && e < d + p.ttl && p.ttl > 0
    ensures MayAcceptTwice(p, d, e)
  {
    var gap := if d >= e then d - e else 0;
    var start, proof := UntilSecondStarts(p), EdgeProof(p);
    EdgeProofStaysFresh(p, 0);
    EdgeProofStaysFresh(p, gap);
    var s, i := TwoRequestsOnFullStore(p, proof, start, start + d, start + gap, start + gap + e);
    assert AcceptedTwice(p, s, i, i + 1);
  }

  /**
   Exactly when a proof can get through twice, for any two delays: some interleaving accepts one proof
   twice with those delays if and only if both checks can fall into one window before marks in that order,
   and, where the store fails closed, its time-to-live falls short of the window's width plus the second
   delay's excess and it can record at all. Failing open, no time-to-live and no capacity protects.
   */
  lemma DoubleAcceptanceIff(p: Params, d: nat, e: nat)
    ensures MayAcceptTwice(p, d, e) <==> IsExposed(p, d, e)
  {
    if IsExposed(p, d, e) {
      if !p.failClosed && p.ttl > 0 && e < d + p.ttl {
        ExposedByFailure(p, d, e);
      } else {
        ExposedByExpiry(p, d, e);
      }
    }
    if MayAcceptTwice(p, d, e) {
      var s: State, i: nat, k: nat :|
        Reachable(p, s) && AcceptedTwice(p, s, i, k) && s.log[i].Delay() == d && s.log[k].Delay() == e;
      ReachableInv(p, s);
      FreshReadingsAreClose(p, s.log[i].checkedAt, s.log[k].checkedAt, s.log[i].proof.iat);
      if p.failClosed {
        SecondAcceptanceNeedsDelay(p, s, i, k);
        AcceptancesAreATtlApart(p, s, i, k);
      }
    }
  }

  /** The store fails closed and remembers for the time-to-live of `replay_ttl`, or can never accept. */
  predicate IsProtected(p: Params) {
    p.failClosed && (p.ttl >= ReplayTtl(p.toleranceSecs) || (p.cap == 0 && p.ttl > 0))
  }

  /**
   The time-to-live of `replay_ttl` is exact: requests with equal delays, or even only requests without
   any delay, are safe if and only if the store fails closed and remembers at least that long. One tick
   less is unsafe, and so is failing open with any time-to-live.
   */
  lemma TtlIsExact(p: Params)
    ensures (forall d: nat :: !MayAcceptTwice(p, d, d)) <==> IsProtected(p)
    ensures !MayAcceptTwice(p, 0, 0) <==> IsProtected(p)
  {
    forall d: nat
      ensures MayAcceptTwice(p, d, d) <==> !IsProtected(p)
    {
      DoubleAcceptanceIff(p, d, d);
    }
    DoubleAcceptanceIff(p, 0, 0);
  }
}
