/**
 Replay protection of the whole pipeline: what accepting two requests that present one proof, on one
 store that any number of other requests use in between, says about their timing.
 */
module VerifierRuns {
  import opened Wrappers
  import opened Config
  import opened Json
  import opened Jwt
  import opened Temporal
  import opened ReplayStore
  import opened Verifier

  /** A request on its way: `checkedAt` is the monotonic instant of its freshness check. */
  datatype Passage = Passage(env: Env, req: AuthRequest, parsed: Parsed, claims: Object, t: Readings, checkedAt: nat) {
    function Delay(): int { t.markNow - checkedAt }
  }

  /** The proof a passage presents states this `jti`. */
  ghost predicate PresentsJti(p: Passage, jti: Jti) {
    p.req.dpop.Some? && StatesJti(p.env.jose, p.req.dpop.value, jti)
  }

  /** The proof a passage presents states this `iat`. */
  ghost predicate PresentsIat(p: Passage, iat: int) {
    p.req.dpop.Some? && ClaimsState(p.env.jose, p.req.dpop.value, "iat", Integer(iat))
  }

  /**
   The k-th operation on the store is this passage's mark, the passage is accepted at that point, and
   its token is bound to a key, so that its proof had to be validated.
   */
  ghost predicate AcceptedAt(c: VerifierConfig, wallOffset: nat, cap: nat, ops: seq<Op>, k: nat, p: Passage, jti: Jti) {
    && k < |ops| && PresentsJti(p, jti)
    && Accepts(p.env, c, p.req, p.parsed, RunLazy(map[], cap, ops[..k]).entries, cap, p.t, p.claims)
    && ExtractCnfJkt(p.claims).Some?
    && ops[k] == Mark(jti, ReplayTtl(c.clockToleranceSecs), p.t.markNow)
    && p.t.proofNow == (wallOffset + p.checkedAt) / TICKS_PER_SEC
    && SaneClock(p.t.proofNow, c.clockToleranceSecs)
  }

  /** The 64-bit freshness check bounds how far apart two readings of one proof are, for every `iat`. */
  lemma PassingReadingsAreClose(a: I64, b: I64, iat: I64, toleranceSecs: nat)
    requires SaneClock(a, toleranceSecs) && SaneClock(b, toleranceSecs)
    requires PassesFreshness(a, iat, toleranceSecs) && PassesFreshness(b, iat, toleranceSecs)
    ensures b - a <= 2 * FreshnessWindow(toleranceSecs)
  {
    FreshnessMeansWindowIff(a, iat, toleranceSecs);
    FreshnessMeansWindowIff(b, iat, toleranceSecs);
  }

  /** A key-bound passage read its clock when the `iat` its proof states was fresh. */
  lemma ProofWasFresh(c: VerifierConfig, entries: Entries, cap: nat, p: Passage, iat: int)
    requires Accepts(p.env, c, p.req, p.parsed, entries, cap, p.t, p.claims) && ExtractCnfJkt(p.claims).Some?
    requires PresentsIat(p, iat)
    ensures I64_MIN <= iat <= I64_MAX && PassesFreshness(p.t.proofNow, iat, c.clockToleranceSecs)
  {
    PeekedClaimIff(p.env.jose, p.req.dpop.value, "iat", Integer(iat));
    hide ClaimsState, PassesFreshness, Listed, ReplayPassed, TokenAccepted;
  }

  /** Was this operation answered as a fresh mark? */
  ghost predicate IsFreshMark(cap: nat, ops: seq<Op>, k: nat)
    requires k < |ops|
  {
    RunLazy(map[], cap, ops).answers[k] == Marked(Ok(New))
  }

  /**
   Two requests accepted with the same proof, or with any two proofs that state the same `jti` and `iat`:
   the later one dawdled strictly longer between its freshness check and its mark than the earlier one
   did. The requests may differ in everything else, token and profile and key set included. Where the
   store fails open, the earlier one must have been marked, not merely let by.
   */
  lemma AcceptingAProofTwiceNeedsDelay(c: VerifierConfig, wallOffset: nat, cap: nat, ops: seq<Op>,
                                       i: nat, p: Passage, k: nat, q: Passage, jti: Jti, iat: int)
    requires Monotone(ops) && i < k
    requires AcceptedAt(c, wallOffset, cap, ops, i, p, jti) && AcceptedAt(c, wallOffset, cap, ops, k, q, jti)
    requires c.replayFailClosed || IsFreshMark(cap, ops, i)
    requires PresentsIat(p, iat) && PresentsIat(q, iat)
    ensures q.Delay() > p.Delay()
  {
    hide Accepts, PresentsJti, PresentsIat, ExtractCnfJkt, PassesFreshness, RunLazy;
    AcceptedMarkOutcome(c, wallOffset, cap, ops, i, p, jti);
    AcceptedMarkOutcome(c, wallOffset, cap, ops, k, q, jti);
    Retention(map[], cap, ops, i, k);
    ProofWasFresh(c, RunLazy(map[], cap, ops[..i]).entries, cap, p, iat);
    ProofWasFresh(c, RunLazy(map[], cap, ops[..k]).entries, cap, q, iat);
    PassingReadingsAreClose(p.t.proofNow, q.t.proofNow, iat, c.clockToleranceSecs);
    assert q.checkedAt - p.checkedAt < ReplayTtl(c.clockToleranceSecs);
  }

  lemma AcceptedMarkOutcome(c: VerifierConfig, wallOffset: nat, cap: nat, ops: seq<Op>, k: nat, p: Passage, jti: Jti)
    requires AcceptedAt(c, wallOffset, cap, ops, k, p, jti)
    ensures RunLazy(map[], cap, ops).answers[k] != Marked(Ok(Replay))
    ensures c.replayFailClosed ==> IsFreshMark(cap, ops, k)
  {
    ReplayJtiIff(p.env.jose, p.req.dpop.value, jti);
    AnswerAt(map[], cap, ops, k);
    hide StatesJti, Admissible, Listed;
  }

  /** Nothing but the replay store can still refuse this passage, which presents a proof with this `jti`. */
  ghost predicate AwaitsReplayCheck(c: VerifierConfig, p: Passage, jti: Jti) {
    && Admissible(p.env, c, p.req, p.parsed, p.t, p.claims)
    && Listed(p.env, c, GetStr(p.claims, c.webidClaim).value, GetStr(p.claims, "iss").value)
    && PresentsJti(p, jti)
  }

  /** The k-th operation on the store is the mark this passage makes. */
  ghost predicate MarksAt(c: VerifierConfig, ops: seq<Op>, k: nat, p: Passage, jti: Jti) {
    && k < |ops| && AwaitsReplayCheck(c, p, jti)
    && ops[k] == Mark(jti, ReplayTtl(c.clockToleranceSecs), p.t.markNow)
  }

  ghost predicate HasRoom(cap: nat, ops: seq<Op>, k: nat)
    requires k < |ops|
  {
    |Live(RunLazy(map[], cap, ops[..k]).entries, ops[k].now)| < cap
  }

  /**
   A passage at its replay check, after any operations on the store: it is accepted if and only if no
   fresh mark of its `jti` is still remembered and, where the store fails closed, the live entries leave
   room for one more.
   */
  lemma AcceptedIffUnseen(c: VerifierConfig, cap: nat, ops: seq<Op>, k: nat, p: Passage, jti: Jti)
    requires Monotone(ops) && MarksAt(c, ops, k, p, jti)
    ensures
      var answers := RunLazy(map[], cap, ops).answers;
      Accepts(p.env, c, p.req, p.parsed, RunLazy(map[], cap, ops[..k]).entries, cap, p.t, p.claims) <==>
      && (HasRoom(cap, ops, k) || !c.replayFailClosed)
      && !exists i: nat :: i < k && Remembers(ops, answers, i, jti, p.t.markNow)
  {
    hide Accepts, AwaitsReplayCheck;
    var before := RunLazy(map[], cap, ops[..k]).entries;
    var outcome := LazyMark(before, cap, jti, ops[k].ttl, ops[k].now).0;
    AcceptsIff(c, before, cap, p, jti);
    assert RunLazy(map[], cap, ops).answers[k] == Marked(outcome) by { AnswerAt(map[], cap, ops, k); }
    ReplayIff(cap, ops, k);
    BoundHolds(map[], cap, ops[..k]);
    MarkIsNewIff(before, cap, jti, ops[k].ttl, ops[k].now);
  }

  /** A passage at its replay check is accepted by what the store answers to the mark of its `jti`. */
  lemma AcceptsIff(c: VerifierConfig, entries: Entries, cap: nat, p: Passage, jti: Jti)
    requires AwaitsReplayCheck(c, p, jti)
    ensures
      var outcome := LazyMark(entries, cap, jti, ReplayTtl(c.clockToleranceSecs), p.t.markNow).0;
      Accepts(p.env, c, p.req, p.parsed, entries, cap, p.t, p.claims) <==>
      outcome == Ok(New) || (outcome.Err? && !c.replayFailClosed)
  {
    ReplayJtiIff(p.env.jose, p.req.dpop.value, jti);
    hide Admissible, Listed, StatesJti, LazyMark;
  }

  lemma MarkIsNewIff(entries: Entries, cap: nat, jti: Jti, ttl: nat, now: nat)
    requires |entries| <= cap && ttl > 0
    ensures
      var outcome := LazyMark(entries, cap, jti, ttl, now).0;
      outcome == Ok(New) <==> outcome != Ok(Replay) && |Live(entries, now)| < cap
  {
    LazyMarkIsEagerMark(entries, cap, jti, ttl, now);
    LiveIsSmaller(entries, now);
  }

  /**
   A second use of a proof, or of any proof with the same `jti`, with any operations on the store before
   and in between: after the latest fresh mark, where there is room or the store fails open and nothing
   else objects, it is accepted if and only if its own mark comes a full time-to-live later.
   */
  lemma SecondUseAcceptedIff(c: VerifierConfig, cap: nat, ops: seq<Op>, i: nat, p: Passage, k: nat, q: Passage,
      jti: Jti)
    requires Monotone(ops) && i < k && MarksAt(c, ops, i, p, jti) && MarksAt(c, ops, k, q, jti)
    requires IsFreshMark(cap, ops, i)
    requires forall h :: i < h < k && ops[h].Mark? && ops[h].jti == ops[i].jti ==> !IsFreshMark(cap, ops, h)
    requires HasRoom(cap, ops, k) || !c.replayFailClosed
    ensures
      Accepts(q.env, c, q.req, q.parsed, RunLazy(map[], cap, ops[..k]).entries, cap, q.t, q.claims) <==>
      q.t.markNow >= p.t.markNow + ReplayTtl(c.clockToleranceSecs)
  {
    AcceptedIffUnseen(c, cap, ops, k, q, jti);
    var answers := RunLazy(map[], cap, ops).answers;
    if h: nat :| h < k && Remembers(ops, answers, h, ops[k].jti, ops[k].now) {
      LatestMarkDecides(cap, ops, h, i, k);
    }
    assert ops[k].now < ops[i].now + ops[i].ttl ==> Remembers(ops, answers, i, ops[k].jti, ops[k].now);
  }

  /** Where an earlier mark is still remembered, so is the latest fresh one. */
  lemma LatestMarkDecides(cap: nat, ops: seq<Op>, h: nat, i: nat, k: nat)
    requires Monotone(ops) && h < k && i < k < |ops|
    requires ops[i].Mark? && ops[i].jti == ops[k].jti && RunLazy(map[], cap, ops).answers[i] == Marked(Ok(New))
    requires Remembers(ops, RunLazy(map[], cap, ops).answers, h, ops[k].jti, ops[k].now)
    requires h <= i
    ensures h == i
  {
    if h < i {
      Retention(map[], cap, ops, h, i);
    }
  }
}
