/**
 The in-memory replay store (src/replay.rs): a mutex-guarded map from a proof's `jti` to the instant
 its entry expires. Instants and durations are counted in clock ticks. Every operation runs under the
 lock and samples the clock there, so an operation is one atomic step at one instant.

 `LazyMark` is what `mark` does to the map, expired leftovers and occasional sweeps included.
 `EagerMark` is the store one would like to have: it forgets an entry the moment it expires.
 The lemmas below show the two cannot be told apart, over every run, and what that buys.
 */
module ReplayStore {
  import opened Wrappers

  type Jti = string
  type Entries = map<Jti, nat>

  datatype MarkResult = New | Replay
  datatype BackendError = AtCapacity

  type MarkOutcome = Result<MarkResult, BackendError>

  /** The entries whose expiry is still in the future. */
  function Live(entries: Entries, now: nat): Entries {
    map j | j in entries && entries[j] > now :: entries[j]
  }

  predicate IsLive(entries: Entries, jti: Jti, now: nat) {
    jti in entries && entries[jti] > now
  }

  /** `mark` as a function of the physical map. */
  function LazyMark(entries: Entries, cap: nat, jti: Jti, ttl: nat, now: nat): (MarkOutcome, Entries) {
    if IsLive(entries, jti, now) then
      (Ok(Replay), entries)
    else if ttl == 0 then
      (Ok(New), entries)
    else
      var swept := if jti !in entries && |entries| >= cap then Live(entries, now) else entries;
      if jti !in entries && |swept| >= cap then
        (Err(AtCapacity), swept)
      else
        (Ok(New), swept[jti := now + ttl])
  }

  /** The specification: a store that holds live entries only. */
  function EagerMark(live: Entries, cap: nat, jti: Jti, ttl: nat, now: nat): (MarkOutcome, Entries) {
    var live := Live(live, now);
    if jti in live then
      (Ok(Replay), live)
    else if ttl == 0 then
      (Ok(New), live)
    else if |live| >= cap then
      (Err(AtCapacity), live)
    else
      (Ok(New), live[jti := now + ttl])
  }

  class InMemoryReplayStore {
    var entries: Entries
    const maxEntries: nat
    const usizeMax: nat

    constructor (maxEntries: nat, usizeMax: nat)
      ensures entries == map[]
      ensures this.maxEntries == maxEntries && this.usizeMax == usizeMax
      ensures Valid()
    {
      entries := map[];
      this.maxEntries := maxEntries;
      this.usizeMax := usizeMax;
    }

    /** The 64-bit setting, clamped to what the platform can count. */
    function Cap(): (cap: nat)
      ensures cap <= maxEntries && cap <= usizeMax && (cap == maxEntries || cap == usizeMax)
    {
      if maxEntries <= usizeMax then maxEntries else usizeMax
    }

    predicate Valid()
      reads this
    {
      |entries| <= Cap()
    }

    /**
     `retain`: looks at every entry once and drops those that have expired. What is left is all that could
     ever be live again, now or later; the map shrinks if and only if something had expired.
     */
    method PruneExpired(now: nat)
      modifies this`entries
      ensures entries == Live(old(entries), now)
      ensures forall t: nat :: now <= t ==> Live(entries, t) == Live(old(entries), t)
      ensures |entries| < |old(entries)| <==> exists j :: j in old(entries) && old(entries)[j] <= now
    {
      ghost var was := entries;
      var pending := entries.Keys;
      while pending != {}
        invariant pending <= entries.Keys <= was.Keys
        invariant forall j :: j in entries ==> entries[j] == was[j]
        invariant forall j :: j in was && j !in pending ==> (j in entries <==> was[j] > now)
        decreases pending
      {
        var j :| j in pending;
        pending := pending - {j};
        if entries[j] <= now {
          entries := entries - {j};
        }
      }
      LiveIsSmaller(was, now);
      if forall j :: j in was ==> was[j] > now {
        assert entries == was;
      }
    }

    /** Check-and-set: `now` is the clock reading taken after the lock was acquired. */
    method Mark(jti: Jti, ttl: nat, now: nat) returns (r: MarkOutcome)
      requires Valid()
      modifies this`entries
      ensures Valid()
      ensures (r, entries) == LazyMark(old(entries), Cap(), jti, ttl, now)
      ensures r.Err? <==> !IsLive(old(entries), jti, now) && ttl > 0 && |Live(old(entries), now)| >= Cap()
      ensures forall j :: IsLive(old(entries), j, now) ==> j in entries && entries[j] == old(entries)[j]
    {
      LiveIsSmaller(entries, now);
      LazyMarkKeepsBound(entries, Cap(), jti, ttl, now);
      LazyMarkIsEagerMark(entries, Cap(), jti, ttl, now);
      if jti in entries && entries[jti] > now {
        return Ok(Replay);
      }
      if ttl > 0 {
        var cap := Cap();
        if jti !in entries && |entries| >= cap {
          PruneExpired(now);
          if |entries| >= cap {
            return Err(AtCapacity);
          }
        }
        entries := entries[jti := now + ttl];
      }
      return Ok(New);
    }

    /** The read-only probe: it answers what `Mark` would, and has no frame to change anything. */
    method Contains(jti: Jti, now: nat) returns (present: bool)
      requires Valid()
      ensures present <==> LazyMark(entries, Cap(), jti, 0, now).0 == Ok(Replay)
      ensures forall ttl: nat :: present <==> LazyMark(entries, Cap(), jti, ttl, now).0 == Ok(Replay)
    {
      present := jti in entries && entries[jti] > now;
    }
  }

  // ---------------------------------------------------------------------------------------------
  // One step
  // ---------------------------------------------------------------------------------------------

  lemma SubmapIsSmaller(small: Entries, big: Entries)
    requires small.Keys <= big.Keys
    ensures |small| <= |big|
    ensures forall j :: j in big && j !in small ==> |small| < |big|
  {
    var rest := big.Keys - small.Keys;
    assert big.Keys == small.Keys + rest;
    assert |big.Keys| == |small.Keys| + |rest|;
  }

  lemma LiveIsSmaller(entries: Entries, now: nat)
    ensures |Live(entries, now)| <= |entries|
    ensures forall j :: j in entries && !IsLive(entries, j, now) ==> |Live(entries, now)| < |entries|
  {
    SubmapIsSmaller(Live(entries, now), entries);
  }

  lemma LazyMarkKeepsBound(entries: Entries, cap: nat, jti: Jti, ttl: nat, now: nat)
    requires |entries| <= cap
    ensures |LazyMark(entries, cap, jti, ttl, now).1| <= cap
  {
    var (r, entries') := LazyMark(entries, cap, jti, ttl, now);
    LiveIsSmaller(entries, now);
    if r == Ok(New) && ttl > 0 {
      var swept := if jti !in entries && |entries| >= cap then Live(entries, now) else entries;
      assert entries'.Keys == swept.Keys + {jti};
    }
  }

  /** Same outcome as the eager store, and the same live entries afterwards, at this and every later instant. */
  lemma LazyMarkIsEagerMark(entries: Entries, cap: nat, jti: Jti, ttl: nat, now: nat)
    requires |entries| <= cap
    ensures
      var lazy := LazyMark(entries, cap, jti, ttl, now);
      var eager := EagerMark(entries, cap, jti, ttl, now);
      lazy.0 == eager.0 && Live(lazy.1, now) == Live(eager.1, now)
  {
    LiveIsSmaller(entries, now);
    assert Live(Live(entries, now), now) == Live(entries, now);
  }

  // ---------------------------------------------------------------------------------------------
  // Whole runs
  // ---------------------------------------------------------------------------------------------

  datatype Op = Mark(jti: Jti, ttl: nat, now: nat) | Probe(jti: Jti, now: nat)

  datatype Answer = Marked(outcome: MarkOutcome) | Probed(present: bool)

  /** The answers given so far and the map they left behind. */
  datatype History = History(answers: seq<Answer>, entries: Entries)

  function LazyStep(entries: Entries, cap: nat, op: Op): (Answer, Entries) {
    match op
    case Mark(jti, ttl, now) =>
      var (r, entries') := LazyMark(entries, cap, jti, ttl, now);
      (Marked(r), entries')
    case Probe(jti, now) =>
      (Probed(IsLive(entries, jti, now)), entries)
  }

  function EagerStep(live: Entries, cap: nat, op: Op): (Answer, Entries) {
    match op
    case Mark(jti, ttl, now) =>
      var (r, live') := EagerMark(live, cap, jti, ttl, now);
      (Marked(r), live')
    case Probe(jti, now) =>
      (Probed(jti in Live(live, now)), Live(live, now))
  }

  function RunLazy(start: Entries, cap: nat, ops: seq<Op>): (h: History)
    ensures |h.answers| == |ops|
  {
    if ops == [] then History([], start)
    else
      var before := RunLazy(start, cap, ops[..|ops| - 1]);
      var (a, entries) := LazyStep(before.entries, cap, ops[|ops| - 1]);
      History(before.answers + [a], entries)
  }

  function RunEager(start: Entries, cap: nat, ops: seq<Op>): (h: History)
    ensures |h.answers| == |ops|
  {
    if ops == [] then History([], start)
    else
      var before := RunEager(start, cap, ops[..|ops| - 1]);
      var (a, entries) := EagerStep(before.entries, cap, ops[|ops| - 1]);
      History(before.answers + [a], entries)
  }

  /** The clock never runs backwards from one critical section to the next. */
  ghost predicate Monotone(ops: seq<Op>) {
    forall i, k :: 0 <= i < k < |ops| ==> ops[i].now <= ops[k].now
  }

  lemma {:induction false} BoundHolds(start: Entries, cap: nat, ops: seq<Op>)
    requires |start| <= cap
    ensures |RunLazy(start, cap, ops).entries| <= cap
  {
    if ops == [] {
    } else {
      var n := |ops| - 1;
      BoundHolds(start, cap, ops[..n]);
      if ops[n].Mark? {
        LazyMarkKeepsBound(RunLazy(start, cap, ops[..n]).entries, cap, ops[n].jti, ops[n].ttl, ops[n].now);
      }
    }
  }

  /** An earlier part of a run answers as it does inside the longer run. */
  lemma {:induction false} RunPrefix(start: Entries, cap: nat, ops: seq<Op>, n: nat)
    requires n <= |ops|
    ensures RunLazy(start, cap, ops[..n]).answers == RunLazy(start, cap, ops).answers[..n]
  {
    if n == |ops| {
      assert ops[..n] == ops;
    } else {
      var m := |ops| - 1;
      RunPrefix(start, cap, ops[..m], n);
      assert ops[..m][..n] == ops[..n];
      var shorter, longer := RunLazy(start, cap, ops[..m]).answers, RunLazy(start, cap, ops).answers;
      assert longer[..m] == shorter;
      assert longer[..n] == shorter[..n];
    }
  }

  /** The k-th answer is one step from the state the first k operations left. */
  lemma AnswerAt(start: Entries, cap: nat, ops: seq<Op>, k: nat)
    requires k < |ops|
    ensures
      var before := RunLazy(start, cap, ops[..k]).entries;
      var after := RunLazy(start, cap, ops[..k + 1]).entries;
      (RunLazy(start, cap, ops).answers[k], after) == LazyStep(before, cap, ops[k])
  {
    RunPrefix(start, cap, ops, k + 1);
    assert ops[..k + 1][..k] == ops[..k];
  }

  /** Two maps with the same live entries at one instant have the same live entries ever after. */
  lemma LiveAgreesLater(a: Entries, b: Entries, now: nat, later: nat)
    requires Live(a, now) == Live(b, now) && now <= later
    ensures Live(a, later) == Live(b, later)
  {
    forall j | j in Live(a, later)
      ensures j in Live(b, later) && Live(b, later)[j] == Live(a, later)[j]
    {
      assert j in Live(a, now);
    }
    forall j | j in Live(b, later)
      ensures j in Live(a, later)
    {
      assert j in Live(b, now);
    }
  }

  lemma EagerMarkDependsOnLive(a: Entries, b: Entries, cap: nat, jti: Jti, ttl: nat, now: nat)
    requires Live(a, now) == Live(b, now)
    ensures EagerMark(a, cap, jti, ttl, now) == EagerMark(b, cap, jti, ttl, now)
  {}

  /**
   Refinement: under a monotone clock every run is answered exactly as by the store that drops entries
   the instant they expire, so leftovers and the timing of sweeps cannot be observed.
   */
  lemma {:induction false} LazyRefinesEager(start: Entries, cap: nat, ops: seq<Op>)
    requires |start| <= cap && Monotone(ops)
    ensures RunLazy(start, cap, ops).answers == RunEager(start, cap, ops).answers
    ensures forall t: nat :: (ops != [] ==> ops[|ops| - 1].now <= t) ==>
              Live(RunLazy(start, cap, ops).entries, t) == Live(RunEager(start, cap, ops).entries, t)
  {
    if ops == [] {
    } else {
      var n := |ops| - 1;
      var op := ops[n];
      LazyRefinesEager(start, cap, ops[..n]);
      BoundHolds(start, cap, ops[..n]);
      var lazy, eager := RunLazy(start, cap, ops[..n]).entries, RunEager(start, cap, ops[..n]).entries;
      assert Live(lazy, op.now) == Live(eager, op.now);
      var lazy', eager' := LazyStep(lazy, cap, op).1, EagerStep(eager, cap, op).1;
      if op.Mark? {
        LazyMarkIsEagerMark(lazy, cap, op.jti, op.ttl, op.now);
        EagerMarkDependsOnLive(lazy, eager, cap, op.jti, op.ttl, op.now);
      } else {
        assert IsLive(lazy, op.jti, op.now) <==> op.jti in Live(lazy, op.now);
        assert Live(Live(eager, op.now), op.now) == Live(eager, op.now);
      }
      assert Live(lazy', op.now) == Live(eager', op.now);
      forall t: nat | op.now <= t
        ensures Live(lazy', t) == Live(eager', t)
      {
        LiveAgreesLater(lazy', eager', op.now, t);
      }
    }
  }

  /** An operation before a recorded `jti` expires leaves its entry alone. */
  lemma StepRetains(start: Entries, cap: nat, ops: seq<Op>, k: nat, jti: Jti)
    requires k < |ops| && IsLive(RunLazy(start, cap, ops[..k]).entries, jti, ops[k].now)
    ensures
      var before, after := RunLazy(start, cap, ops[..k]).entries, RunLazy(start, cap, ops[..k + 1]).entries;
      jti in after && after[jti] == before[jti]
  {
    assert ops[..k + 1][..k] == ops[..k];
  }

  /** A fresh answer to a mark with a time-to-live records the `jti`. */
  lemma FreshMarkRecords(start: Entries, cap: nat, ops: seq<Op>, k: nat)
    requires k < |ops| && ops[k].Mark? && ops[k].ttl > 0
    requires RunLazy(start, cap, ops).answers[k] == Marked(Ok(New))
    ensures
      var after := RunLazy(start, cap, ops[..k + 1]).entries;
      ops[k].jti in after && after[ops[k].jti] == ops[k].now + ops[k].ttl
  {
    AnswerAt(start, cap, ops, k);
  }

  /** A recorded `jti` keeps its expiry until that instant arrives, whatever else the store is asked. */
  lemma {:induction false} Retained(start: Entries, cap: nat, ops: seq<Op>, i: nat, n: nat)
    requires i < n <= |ops|
    requires ops[i].Mark? && ops[i].ttl > 0
    requires RunLazy(start, cap, ops).answers[i] == Marked(Ok(New))
    requires forall k :: i < k < n ==> ops[k].now < ops[i].now + ops[i].ttl
    ensures
      var entries := RunLazy(start, cap, ops[..n]).entries;
      ops[i].jti in entries && entries[ops[i].jti] == ops[i].now + ops[i].ttl
  {
    if n == i + 1 {
      FreshMarkRecords(start, cap, ops, i);
    } else {
      Retained(start, cap, ops, i, n - 1);
      StepRetains(start, cap, ops, n - 1, ops[i].jti);
    }
  }

  /**
   Retention: two fresh answers for one `jti` are at least the first mark's time-to-live apart. With
   the contrapositive: inside that window every mark of the `jti` is answered as a replay.
   */
  lemma Retention(start: Entries, cap: nat, ops: seq<Op>, i: nat, k: nat)
    requires Monotone(ops) && i < k < |ops|
    requires ops[i].Mark? && ops[i].ttl > 0 && ops[k].Mark? && ops[i].jti == ops[k].jti
    requires RunLazy(start, cap, ops).answers[i] == Marked(Ok(New))
    ensures ops[k].now < ops[i].now + ops[i].ttl ==> RunLazy(start, cap, ops).answers[k] == Marked(Ok(Replay))
    ensures RunLazy(start, cap, ops).answers[k] == Marked(Ok(New)) ==> ops[k].now >= ops[i].now + ops[i].ttl
  {
    if ops[k].now < ops[i].now + ops[i].ttl {
      Retained(start, cap, ops, i, k);
      AnswerAt(start, cap, ops, k);
    }
  }

  /** Answer i is that of a fresh mark of `jti` whose time-to-live is not over at `now`. */
  ghost predicate Remembers(ops: seq<Op>, answers: seq<Answer>, i: nat, jti: Jti, now: nat) {
    && i < |ops| && i < |answers|
    && ops[i].Mark? && ops[i].jti == jti && answers[i] == Marked(Ok(New)) && now < ops[i].now + ops[i].ttl
  }

  /** Every entry a run leaves was recorded by a fresh mark of its `jti`, and expires when that mark said. */
  lemma {:induction false} EntryHasMark(cap: nat, ops: seq<Op>, jti: Jti) returns (i: nat)
    ensures jti in RunLazy(map[], cap, ops).entries ==>
              && i < |ops| && ops[i].Mark? && ops[i].jti == jti
              && RunLazy(map[], cap, ops).answers[i] == Marked(Ok(New))
              && RunLazy(map[], cap, ops).entries[jti] == ops[i].now + ops[i].ttl
  {
    if ops == [] {
      i := 0;
    } else {
      var n := |ops| - 1;
      i := EntryHasMark(cap, ops[..n], jti);
      var before, after := RunLazy(map[], cap, ops[..n]), RunLazy(map[], cap, ops);
      assert after.answers[..n] == before.answers;
      if jti in after.entries && !(jti in before.entries && before.entries[jti] == after.entries[jti]) {
        i := n;
      }
    }
  }

  /**
   A replay is reported if and only if the `jti` was freshly marked before and that mark's time-to-live
   is not over: neither is a repetition missed nor a first use refused as one.
   */
  lemma ReplayIff(cap: nat, ops: seq<Op>, k: nat)
    requires Monotone(ops) && k < |ops| && ops[k].Mark?
    ensures
      var answers := RunLazy(map[], cap, ops).answers;
      answers[k] == Marked(Ok(Replay)) <==> exists i: nat :: i < k && Remembers(ops, answers, i, ops[k].jti, ops[k].now)
  {
    var answers := RunLazy(map[], cap, ops).answers;
    forall i: nat | i < k && Remembers(ops, answers, i, ops[k].jti, ops[k].now)
      ensures answers[k] == Marked(Ok(Replay))
    {
      Retention(map[], cap, ops, i, k);
    }
    if answers[k] == Marked(Ok(Replay)) {
      AnswerAt(map[], cap, ops, k);
      var i := EntryHasMark(cap, ops[..k], ops[k].jti);
      RunPrefix(map[], cap, ops, k);
      assert Remembers(ops, answers, i, ops[k].jti, ops[k].now);
    }
  }

  /** The indices at which a run answered a mark of `jti` as fresh. */
  ghost function FreshMarks(start: Entries, cap: nat, ops: seq<Op>, jti: Jti): set<int> {
    set k | 0 <= k < |ops| && ops[k].Mark? && ops[k].jti == jti
            && RunLazy(start, cap, ops).answers[k] == Marked(Ok(New))
  }

  /**
   The race: when the first mark of a `jti` finds it unrecorded and the store has room, then among all
   marks of it that sample the clock inside the winner's window that first one, and no other, is fresh.
   */
  lemma ExactlyOneWinner(start: Entries, cap: nat, ops: seq<Op>, jti: Jti, first: nat)
    requires |start| <= cap && Monotone(ops)
    requires first < |ops| && ops[first].Mark? && ops[first].jti == jti && ops[first].ttl > 0
    requires forall k :: 0 <= k < first && ops[k].Mark? ==> ops[k].jti != jti
    requires forall k :: first < k < |ops| && ops[k].Mark? && ops[k].jti == jti ==>
                           ops[k].now < ops[first].now + ops[first].ttl
    requires
      var before := Live(RunLazy(start, cap, ops[..first]).entries, ops[first].now);
      jti !in before && |before| < cap
    ensures FreshMarks(start, cap, ops, jti) == {first as int}
  {
    var before := RunLazy(start, cap, ops[..first]).entries;
    AnswerAt(start, cap, ops, first);
    BoundHolds(start, cap, ops[..first]);
    LazyMarkIsEagerMark(before, cap, jti, ops[first].ttl, ops[first].now);
    assert Live(before, ops[first].now) == Live(Live(before, ops[first].now), ops[first].now);
    forall k | first < k < |ops| && ops[k].Mark? && ops[k].jti == jti
      ensures RunLazy(start, cap, ops).answers[k] == Marked(Ok(Replay))
    {
      Retention(start, cap, ops, first, k);
    }
  }

  // ---------------------------------------------------------------------------------------------
  // Probes
  // ---------------------------------------------------------------------------------------------

  function OnlyMarks(ops: seq<Op>): (marks: seq<Op>)
    ensures forall k :: 0 <= k < |marks| ==> marks[k].Mark?
  {
    if ops == [] then []
    else OnlyMarks(ops[..|ops| - 1]) + (if ops[|ops| - 1].Mark? then [ops[|ops| - 1]] else [])
  }

  function OnlyMarkAnswers(answers: seq<Answer>): (marks: seq<Answer>)
    ensures forall k :: 0 <= k < |marks| ==> marks[k].Marked?
  {
    if answers == [] then []
    else
      var last := answers[|answers| - 1];
      OnlyMarkAnswers(answers[..|answers| - 1]) + (if last.Marked? then [last] else [])
  }

  /** Probes are silent: taking every one of them out of a run changes no mark's answer, nor the map. */
  lemma {:induction false} ProbesAreSilent(start: Entries, cap: nat, ops: seq<Op>)
    ensures OnlyMarkAnswers(RunLazy(start, cap, ops).answers) == RunLazy(start, cap, OnlyMarks(ops)).answers
    ensures RunLazy(start, cap, ops).entries == RunLazy(start, cap, OnlyMarks(ops)).entries
  {
    if ops == [] {
    } else {
      var n := |ops| - 1;
      ProbesAreSilent(start, cap, ops[..n]);
      var h := RunLazy(start, cap, ops);
      assert h.answers[..n] == RunLazy(start, cap, ops[..n]).answers;
      if ops[n].Mark? {
        var marks := OnlyMarks(ops);
        assert marks[..|marks| - 1] == OnlyMarks(ops[..n]);
      } else {
        assert OnlyMarks(ops) == OnlyMarks(ops[..n]);
      }
    }
  }

  /** A probe foretells the mark: at any point of any run it answers yes exactly when a mark would be a replay. */
  lemma ProbeForetellsMark(start: Entries, cap: nat, ops: seq<Op>, jti: Jti, ttl: nat, now: nat)
    ensures
      var asked := RunLazy(start, cap, ops + [Probe(jti, now)]).answers;
      var marked := RunLazy(start, cap, ops + [Mark(jti, ttl, now)]).answers;
      asked[|ops|] == Probed(true) <==> marked[|ops|] == Marked(Ok(Replay))
  {
    assert (ops + [Probe(jti, now)])[..|ops|] == ops;
    assert (ops + [Mark(jti, ttl, now)])[..|ops|] == ops;
  }
}
