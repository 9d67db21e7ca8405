/** The access points of one radio and the total of active stations that the radio caches. */
module RadioTotals {
  import opened StationTable
  import R = StationRuns

  /** `limit` is the access point's configured maximum, negative for none. */
  datatype Ap = Ap(limit: int, st: R.ApState)

  /** The radio's maximum (not positive for none), and the maximum of an access point that has none of its own. */
  datatype Limits = Limits(radMax: int, hwMax: nat)

  datatype RadioState = RadioState(aps: seq<Ap>, current: int, limits: Limits)

  /** The sum of the cached counters of the access points. */
  function Sum(aps: seq<Ap>): int {
    if aps == [] then 0 else Sum(aps[..|aps| - 1]) + aps[|aps| - 1].st.nrActive
  }

  /** The stations that are active in the tables. */
  function NrActiveOf(aps: seq<Ap>): nat {
    if aps == [] then 0 else NrActiveOf(aps[..|aps| - 1]) + NrActive(aps[|aps| - 1].st.tab)
  }

  /** Those that the counters of their access points do not count. */
  function UnseenOf(aps: seq<Ap>): int {
    NrActiveOf(aps) - Sum(aps)
  }

  datatype Call =
    | ApCall(k: nat, c: R.Call)
    | JoinCall(limit: int)
    | LeaveCall(k: nat)
    | ApLimitCall(k: nat, limit: int)
    | LimitsCall(limits: Limits)

  /** A call of the access point `k`; if it ends in wld_vap_syncNrDev the radio's total is brought up to date. */
  ghost predicate ApNext(q: RadioState, k: nat, c: R.Call, r: RadioState) {
    && k < |q.aps| == |r.aps|
    && R.Next(q.aps[k].st, c, r.aps[k].st)
    && r.aps == q.aps[k := q.aps[k].(st := r.aps[k].st)]
    && r.current == (if R.Syncs(q.aps[k].st, c) then Sum(r.aps) else q.current)
    && r.limits == q.limits
  }

  /** A call of one access point, an access point joining or leaving the radio, or a maximum that changes. */
  ghost predicate Next(q: RadioState, rc: Call, r: RadioState) {
    match rc
    case ApCall(k, c) => ApNext(q, k, c, r)
    case JoinCall(limit) => r == q.(aps := q.aps + [Ap(limit, R.INIT_AP)])
    case LeaveCall(k) => k < |q.aps| && r == q.(aps := q.aps[..k] + q.aps[k + 1..])
    case ApLimitCall(k, limit) => k < |q.aps| && r == q.(aps := q.aps[k := q.aps[k].(limit := limit)])
    case LimitsCall(limits) => r == q.(limits := limits)
  }

  ghost predicate AllShaped(aps: seq<Ap>) {
    forall k :: 0 <= k < |aps| ==> R.Shaped(aps[k].st)
  }

  ghost predicate AllCounted(aps: seq<Ap>) {
    forall k :: 0 <= k < |aps| ==> R.Counted(aps[k].st)
  }

  predicate SyncsRadio(q: RadioState, rc: Call) {
    rc.ApCall? && rc.k < |q.aps| && R.Syncs(q.aps[rc.k].st, rc.c)
  }

  /** What a call adds to the active stations of the radio. */
  function Gain(q: RadioState, rc: Call): int {
    match rc
    case ApCall(k, c) => if k < |q.aps| then R.Gain(q.aps[k].st, c) else 0
    case LeaveCall(k) => if k < |q.aps| then 0 - NrActive(q.aps[k].st.tab) else 0
    case _ => 0
  }

  /** The active stations that a call takes away without the total being brought up to date;
      negative for one that it adds. */
  function Lost(q: RadioState, rc: Call): int {
    if SyncsRadio(q, rc) then 0 else -Gain(q, rc)
  }

  // ---------- sums ----------

  lemma {:induction false} SumUpdate(aps: seq<Ap>, k: nat, a: Ap)
    requires k < |aps|
    ensures Sum(aps[k := a]) == Sum(aps) - aps[k].st.nrActive + a.st.nrActive
  {
    var n := |aps| - 1;
    if k == n {
      assert aps[k := a][..n] == aps[..n];
    } else {
      assert aps[k := a][..n] == aps[..n][k := a];
      SumUpdate(aps[..n], k, a);
    }
  }

  lemma {:induction false} ActiveUpdate(aps: seq<Ap>, k: nat, a: Ap)
    requires k < |aps|
    ensures NrActiveOf(aps[k := a]) == NrActiveOf(aps) - NrActive(aps[k].st.tab) + NrActive(a.st.tab)
  {
    hide NrActive;
    var n := |aps| - 1;
    if k == n {
      assert aps[k := a][..n] == aps[..n];
    } else {
      assert aps[k := a][..n] == aps[..n][k := a];
      ActiveUpdate(aps[..n], k, a);
    }
  }

  lemma {:induction false} ActiveLeave(aps: seq<Ap>, k: nat)
    requires k < |aps|
    ensures NrActiveOf(aps[..k] + aps[k + 1..]) == NrActiveOf(aps) - NrActive(aps[k].st.tab)
  {
    hide NrActive;
    var n := |aps| - 1;
    if k == n {
      assert aps[..k] + aps[k + 1..] == aps[..n];
    } else {
      var r := aps[..k] + aps[k + 1..];
      assert r[..|r| - 1] == aps[..n][..k] + aps[..n][k + 1..] && r[|r| - 1] == aps[n];
      ActiveLeave(aps[..n], k);
    }
  }

  lemma ActiveJoin(aps: seq<Ap>, limit: int)
    ensures NrActiveOf(aps + [Ap(limit, R.INIT_AP)]) == NrActiveOf(aps)
  {
    assert (aps + [Ap(limit, R.INIT_AP)])[..|aps|] == aps;
  }

  /** Current counters add up to the stations that are active. */
  lemma {:induction false} SumCounts(aps: seq<Ap>)
    requires AllCounted(aps)
    ensures UnseenOf(aps) == 0
  {
    if aps != [] {
      assert AllCounted(aps[..|aps| - 1]);
      assert R.Counted(aps[|aps| - 1].st);
      SumCounts(aps[..|aps| - 1]);
    }
  }

  // ---------- one call ----------

  lemma NextShaped(q: RadioState, rc: Call, r: RadioState)
    requires AllShaped(q.aps) && Next(q, rc, r)
    ensures AllShaped(r.aps)
  {
    hide R.Next, R.Shaped, R.Syncs, R.INIT_AP, Sum;
    match rc
    case ApCall(k, c) => ApShaped(q.aps[k].st, c, r.aps[k].st);
    case JoinCall(limit) => InitCounted();
    case _ =>
  }

  lemma ApShaped(st: R.ApState, c: R.Call, r: R.ApState)
    requires R.Shaped(st) && R.Next(st, c, r)
    ensures R.Shaped(r)
  {
    hide R.Next, R.Shaped, R.Gain;
    R.NextMoves(st, c, r);
  }

  lemma InitCounted()
    ensures R.Counted(R.INIT_AP)
  {
  }

  /** How many stations of the radio are active after a call. */
  lemma NextActive(q: RadioState, rc: Call, r: RadioState)
    requires AllShaped(q.aps) && Next(q, rc, r)
    ensures NrActiveOf(r.aps) == NrActiveOf(q.aps) + Gain(q, rc)
  {
    hide R.Next, R.Shaped, R.Gain, NrActive, NrActiveOf, Sum;
    match rc
    case ApCall(k, c) =>
      assert R.Shaped(q.aps[k].st);
      R.NextMoves(q.aps[k].st, c, r.aps[k].st);
      ActiveUpdate(q.aps, k, r.aps[k]);
    case JoinCall(limit) => ActiveJoin(q.aps, limit);
    case LeaveCall(k) => ActiveLeave(q.aps, k);
    case ApLimitCall(k, limit) => ActiveUpdate(q.aps, k, r.aps[k]);
    case LimitsCall(_) =>
  }

  /** After a synchronisation only the other access points can have stations not counted. */
  lemma SyncUnseen(q: RadioState, rc: Call, r: RadioState)
    requires AllShaped(q.aps) && Next(q, rc, r) && SyncsRadio(q, rc)
    ensures UnseenOf(r.aps) == UnseenOf(q.aps) - R.Unseen(q.aps[rc.k].st)
    ensures r.current == Sum(r.aps)
  {
    hide R.Next, R.Shaped, R.Syncs, NrActive, NrActiveOf, Sum;
    assert R.Shaped(q.aps[rc.k].st);
    R.NextUnseen(q.aps[rc.k].st, rc.c, r.aps[rc.k].st);
    SumUpdate(q.aps, rc.k, r.aps[rc.k]);
    ActiveUpdate(q.aps, rc.k, r.aps[rc.k]);
  }

  /** What a call does to the gap between the cached total and the stations that are active. */
  lemma NextGap(q: RadioState, rc: Call, r: RadioState)
    requires AllShaped(q.aps) && Next(q, rc, r)
    ensures SyncsRadio(q, rc) ==>
      r.current - NrActiveOf(r.aps) == R.Unseen(q.aps[rc.k].st) - UnseenOf(q.aps)
    ensures !SyncsRadio(q, rc) ==>
      r.current - NrActiveOf(r.aps) == q.current - NrActiveOf(q.aps) + Lost(q, rc)
  {
    NextActive(q, rc, r);
    if SyncsRadio(q, rc) { SyncUnseen(q, rc, r); }
    hide R.Next, R.Gain, R.Syncs, NrActive, NrActiveOf, Sum;
  }

  /** The call changes the active stations of an access point without any synchronisation. */
  predicate MovesUnsynced(st: R.ApState, c: R.Call) {
    R.DestroysActive(st, c) || R.Raises(st, c) || R.LosesLent(st, c)
  }

  /** From a current total the next total is current if and only if a synchronising call finds
      the other counters adding up, and any other call neither destroys nor raises nor lends
      a station away, nor takes an access point with active stations from the radio. */
  lemma TotalStaysCurrentExactly(q: RadioState, rc: Call, r: RadioState)
    requires AllShaped(q.aps) && Next(q, rc, r) && q.current == NrActiveOf(q.aps)
    ensures SyncsRadio(q, rc) ==>
      (r.current == NrActiveOf(r.aps) <==> UnseenOf(q.aps) == R.Unseen(q.aps[rc.k].st))
    ensures !SyncsRadio(q, rc) && rc.ApCall? ==>
      (r.current == NrActiveOf(r.aps) <==> !MovesUnsynced(q.aps[rc.k].st, rc.c))
    ensures rc.LeaveCall? ==> (r.current == NrActiveOf(r.aps) <==> NrActive(q.aps[rc.k].st.tab) == 0)
    ensures !rc.ApCall? && !rc.LeaveCall? ==> r.current == NrActiveOf(r.aps)
  {
    NextGap(q, rc, r);
    hide R.Next, Sum, NrActiveOf, NrActive;
  }

  // ---------- runs ----------

  function Init(limits: Limits): RadioState { RadioState([], 0, limits) }

  ghost predicate IsRun(states: seq<RadioState>, calls: seq<Call>) {
    |states| == |calls| + 1 && forall i :: 0 <= i < |calls| ==> Next(states[i], calls[i], states[i + 1])
  }

  /** A run of a radio that starts without access points. */
  ghost predicate IsFirstRun(states: seq<RadioState>, calls: seq<Call>) {
    IsRun(states, calls) && states[0] == Init(states[0].limits)
  }

  lemma {:induction false} RunsStayShaped(states: seq<RadioState>, calls: seq<Call>, n: nat)
    requires IsFirstRun(states, calls) && n <= |calls|
    ensures AllShaped(states[n].aps)
  {
    if n > 0 {
      RunsStayShaped(states, calls, n - 1);
      hide AllShaped, Next;
      NextShaped(states[n - 1], calls[n - 1], states[n]);
    }
  }

  /** What the radio's total is above the active stations, from the calls since it was last
      brought up to date and the counters that were stale then. */
  function GapSinceSync(states: seq<RadioState>, calls: seq<Call>, n: nat): int
    requires n <= |calls| <= |states|
  {
    if n == 0 then 0
    else if SyncsRadio(states[n - 1], calls[n - 1])
    then R.Unseen(states[n - 1].aps[calls[n - 1].k].st) - UnseenOf(states[n - 1].aps)
    else GapSinceSync(states, calls, n - 1) + Lost(states[n - 1], calls[n - 1])
  }

  /** In every state of every run the radio's total is the number of stations active in the
      tables of its access points, and that gap, which can have either sign. */
  lemma {:induction false} TotalIsActiveAndGap(states: seq<RadioState>, calls: seq<Call>, n: nat)
    requires IsFirstRun(states, calls) && n <= |calls|
    ensures states[n].current == NrActiveOf(states[n].aps) + GapSinceSync(states, calls, n)
  {
    hide Next, NrActiveOf, UnseenOf, R.Unseen, AllShaped, Lost, SyncsRadio;
    if n == 0 {
      InitTotal(states[0].limits);
    } else {
      assert Next(states[n - 1], calls[n - 1], states[n - 1 + 1]);
      TotalIsActiveAndGap(states, calls, n - 1);
      RunsStayShaped(states, calls, n - 1);
      NextGap(states[n - 1], calls[n - 1], states[n]);
    }
  }

  lemma InitTotal(limits: Limits)
    ensures NrActiveOf(Init(limits).aps) == Init(limits).current == 0
  {
  }

  /** A call that loses nothing keeps all counters current. */
  lemma NextCounted(q: RadioState, rc: Call, r: RadioState)
    requires AllCounted(q.aps) && Next(q, rc, r) && Lost(q, rc) == 0
    ensures AllCounted(r.aps)
  {
    hide R.Next, R.Counted, R.Syncs, R.Gain, R.INIT_AP, Sum;
    match rc
    case ApCall(k, c) => ApCounted(q.aps[k].st, c, r.aps[k].st);
    case JoinCall(limit) => InitCounted();
    case _ =>
  }

  lemma ApCounted(st: R.ApState, c: R.Call, r: R.ApState)
    requires R.Counted(st) && R.Next(st, c, r) && (R.Syncs(st, c) || R.Gain(st, c) == 0)
    ensures R.Counted(r)
  {
    hide R.Next, R.Shaped, R.Drift, R.Gain, R.Syncs, NrActive;
    R.DriftUnsynced(st, c);
    R.NextUnseen(st, c, r);
  }

  /** In a run that loses no active station and adds none behind the counters, these are
      current in every state. */
  lemma {:induction false} CountersStayCurrent(states: seq<RadioState>, calls: seq<Call>, n: nat)
    requires IsFirstRun(states, calls) && n <= |calls|
    requires forall i :: 0 <= i < n ==> Lost(states[i], calls[i]) == 0
    ensures AllCounted(states[n].aps)
  {
    if n > 0 {
      CountersStayCurrent(states, calls, n - 1);
      hide AllCounted, Next, Lost;
      NextCounted(states[n - 1], calls[n - 1], states[n]);
    }
  }

  /** The total is current in all states of a run if and only if no call of it changes the
      active stations without bringing the total up to date. */
  lemma {:induction false} TotalStaysCurrent(states: seq<RadioState>, calls: seq<Call>, n: nat)
    requires IsFirstRun(states, calls) && n <= |calls|
    ensures (forall i :: 0 <= i <= n ==> states[i].current == NrActiveOf(states[i].aps)) <==>
      forall i :: 0 <= i < n ==> Lost(states[i], calls[i]) == 0
  {
    hide Next, Lost, NrActiveOf, SyncsRadio, R.Unseen, UnseenOf, AllShaped;
    if n == 0 {
      InitTotal(states[0].limits);
    } else {
      var q, rc, r := states[n - 1], calls[n - 1], states[n];
      assert Next(states[n - 1], calls[n - 1], states[n - 1 + 1]);
      TotalStaysCurrent(states, calls, n - 1);
      RunsStayShaped(states, calls, n - 1);
      NextGap(q, rc, r);
      if forall i :: 0 <= i < n - 1 ==> Lost(states[i], calls[i]) == 0 {
        CountersStayCurrent(states, calls, n - 1);
        SyncLosesNothing(q, rc);
      }
    }
  }

  lemma SyncLosesNothing(q: RadioState, rc: Call)
    requires AllCounted(q.aps)
    ensures SyncsRadio(q, rc) ==> Lost(q, rc) == 0 && R.Unseen(q.aps[rc.k].st) == UnseenOf(q.aps)
  {
    SumCounts(q.aps);
    hide R.Syncs, NrActiveOf, Sum;
    if SyncsRadio(q, rc) { assert R.Counted(q.aps[rc.k].st); }
  }
}
