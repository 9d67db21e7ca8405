/** The admission of stations by the computed maximum, which reads the cached counters. */
module Admission {
  import opened Collections
  import opened StationTable
  import opened RadioTotals
  import R = StationRuns

  function ApLimit(limit: int, l: Limits): int {
    if limit < 0 then l.hwMax else limit
  }

  function Min(a: int, b: int): int { if a < b then a else b }

  function Max(a: int, b: int): int { if a < b then b else a }

  /** wld_ap_getMaxNbrSta. */
  function MaxNbrSta(limit: int, nrActive: int, current: int, l: Limits): (m: nat)
    ensures l.radMax > 0 ==> m == Max(0, Min(ApLimit(limit, l), nrActive + l.radMax - current))
    ensures l.radMax <= 0 ==> m == Max(0, ApLimit(limit, l))
  {
    var m :=
      if l.radMax > 0 && l.radMax - current < ApLimit(limit, l) - nrActive
      then nrActive + l.radMax - current
      else ApLimit(limit, l);
    if m < 0 then 0 else m
  }

  /** The call makes an inactive station active by an attempt. */
  predicate Activates(q: RadioState, rc: Call) {
    rc.ApCall? && (rc.c.TryCall? || rc.c.SuccessCall?) && SyncsRadio(q, rc)
  }

  /** The call sets the active flag of an inactive station, and nothing else. */
  predicate RaisesOne(q: RadioState, rc: Call) {
    rc.ApCall? && rc.k < |q.aps| && R.Raises(q.aps[rc.k].st, rc.c)
  }

  /** The access point's counter is below the maximum computed from the cached fields. */
  predicate Admits(q: RadioState, k: nat)
    requires k < |q.aps|
  {
    q.aps[k].st.nrActive < MaxNbrSta(q.aps[k].limit, q.aps[k].st.nrActive, q.current, q.limits)
  }

  /** Stations in the tables, against the maximum of the radio and of each access point. */
  ghost predicate WithinLimits(q: RadioState) {
    && RadioWithin(q.aps, q.limits)
    && forall k :: 0 <= k < |q.aps| ==> ApWithin(q.aps[k], q.limits)
  }

  predicate RadioWithin(aps: seq<Ap>, l: Limits) {
    l.radMax > 0 ==> NrActiveOf(aps) <= l.radMax
  }

  predicate ApWithin(a: Ap, l: Limits) {
    NrActive(a.st.tab) <= Max(0, ApLimit(a.limit, l))
  }

  /** The access point and the radio have room for one more station. */
  predicate Room(q: RadioState, k: nat)
    requires k < |q.aps|
  {
    && NrActive(q.aps[k].st.tab) < ApLimit(q.aps[k].limit, q.limits)
    && (q.limits.radMax > 0 ==> NrActiveOf(q.aps) < q.limits.radMax)
  }

  /** The counters and the total count at least the stations that are active. */
  ghost predicate Safe(q: RadioState) {
    && AllShaped(q.aps) && NrActiveOf(q.aps) <= q.current
    && forall k :: 0 <= k < |q.aps| ==> R.Unseen(q.aps[k].st) <= 0
  }

  // ---------- one call ----------

  /** Only attempts and raises add to the active stations of a radio, and they add one. */
  lemma GainsOne(q: RadioState, rc: Call)
    ensures Activates(q, rc) || RaisesOne(q, rc) ==> Gain(q, rc) == 1
    ensures !Activates(q, rc) && !RaisesOne(q, rc) ==> Gain(q, rc) <= 0
  {
    hide NrActive;
  }

  /** The call leaves the limits as they should be: there is room for a station it makes
      active, and a maximum it changes covers the stations that are active. */
  predicate Fits(q: RadioState, rc: Call) {
    match rc
    case ApCall(k, _) => k < |q.aps| && (Activates(q, rc) || RaisesOne(q, rc) ==> Room(q, k))
    case ApLimitCall(k, limit) => k < |q.aps| && ApWithin(q.aps[k].(limit := limit), q.limits)
    case LimitsCall(l) => RadioWithin(q.aps, l) && forall k :: 0 <= k < |q.aps| ==> ApWithin(q.aps[k], l)
    case _ => true
  }

  lemma ApCallWithin(q: RadioState, k: nat, c: R.Call, r: RadioState)
    requires AllShaped(q.aps) && WithinLimits(q) && ApNext(q, k, c, r)
    ensures WithinLimits(r) <==> Fits(q, ApCall(k, c))
  {
    var rc := ApCall(k, c);
    GainsOne(q, rc);
    NextActive(q, rc, r);
    assert R.Shaped(q.aps[k].st);
    R.NextMoves(q.aps[k].st, c, r.aps[k].st);
    assert ApWithin(q.aps[k], q.limits);
    hide R.Next, R.Shaped, R.Gain, R.Syncs, NrActive, NrActiveOf, Sum, AllShaped, Activates, RaisesOne;
    forall j | 0 <= j < |r.aps| && j != k ensures ApWithin(r.aps[j], r.limits) {
      assert r.aps[j] == q.aps[j] && ApWithin(q.aps[j], q.limits);
    }
  }

  /** A call keeps the limits if and only if it fits. */
  lemma NextWithinExactly(q: RadioState, rc: Call, r: RadioState)
    requires AllShaped(q.aps) && WithinLimits(q) && Next(q, rc, r)
    ensures WithinLimits(r) <==> Fits(q, rc)
  {
    hide ApNext, R.INIT_AP, NrActive, NrActiveOf, Sum, AllShaped, Room;
    match rc
    case ApCall(k, c) => ApCallWithin(q, k, c, r);
    case JoinCall(limit) =>
      NextActive(q, rc, r);
      InitWithin(limit, q.limits);
    case LeaveCall(k) => NextActive(q, rc, r);
    case ApLimitCall(k, limit) =>
      NextActive(q, rc, r);
      assert r.aps[k] == q.aps[k].(limit := limit);
      forall j | 0 <= j < |r.aps| && j != k ensures ApWithin(r.aps[j], r.limits) {
        assert r.aps[j] == q.aps[j] && ApWithin(q.aps[j], q.limits);
      }
    case LimitsCall(_) =>
  }

  lemma InitWithin(limit: int, l: Limits)
    ensures ApWithin(Ap(limit, R.INIT_AP), l)
  {
  }

  /** Admission in the cached fields: a negative counter always admits. */
  lemma AdmitsExactly(q: RadioState, k: nat)
    requires k < |q.aps|
    ensures
      var n := q.aps[k].st.nrActive;
      Admits(q, k) <==>
      n < 0 || (n < ApLimit(q.aps[k].limit, q.limits) && (q.limits.radMax > 0 ==> q.current < q.limits.radMax))
  {
  }

  /** With a current counter and a current total, a station is admitted exactly when the
      limits still hold with it. */
  lemma AdmissionIsExact(q: RadioState, rc: Call, r: RadioState)
    requires AllShaped(q.aps) && WithinLimits(q) && Next(q, rc, r) && Activates(q, rc)
    requires R.Counted(q.aps[rc.k].st) && q.current == NrActiveOf(q.aps)
    ensures Admits(q, rc.k) <==> WithinLimits(r)
  {
    NextWithinExactly(q, rc, r);
    AdmitsExactly(q, rc.k);
    hide Next, WithinLimits, Admits, NrActive, NrActiveOf, AllShaped;
  }

  /** A station that the limits allow is refused exactly when there is room for it, and the
      counter is not negative and has reached the access point's limit or the total the
      radio's maximum. */
  lemma WrongRefusalExactly(q: RadioState, rc: Call, r: RadioState)
    requires AllShaped(q.aps) && WithinLimits(q) && Next(q, rc, r) && Activates(q, rc)
    ensures
      var n, m, l := q.aps[rc.k].st.nrActive, NrActive(q.aps[rc.k].st.tab), ApLimit(q.aps[rc.k].limit, q.limits);
      !Admits(q, rc.k) && WithinLimits(r) <==>
      && m < l && (q.limits.radMax > 0 ==> NrActiveOf(q.aps) < q.limits.radMax)
      && n >= 0 && (l <= n || (q.limits.radMax > 0 && q.limits.radMax <= q.current))
  {
    NextWithinExactly(q, rc, r);
    AdmitsExactly(q, rc.k);
    hide Next, WithinLimits, Admits, NrActive, NrActiveOf, AllShaped;
  }

  /** A station that the limits do not allow is admitted exactly when the stations that are
      active have reached one of them while the counter is negative, or the counter is below
      the access point's limit and the total below the radio's maximum. */
  lemma WrongAdmissionExactly(q: RadioState, rc: Call, r: RadioState)
    requires AllShaped(q.aps) && WithinLimits(q) && Next(q, rc, r) && Activates(q, rc)
    ensures
      var n, m, l := q.aps[rc.k].st.nrActive, NrActive(q.aps[rc.k].st.tab), ApLimit(q.aps[rc.k].limit, q.limits);
      Admits(q, rc.k) && !WithinLimits(r) <==>
      && (l <= m || (q.limits.radMax > 0 && q.limits.radMax <= NrActiveOf(q.aps)))
      && (n < 0 || (n < l && (q.limits.radMax > 0 ==> q.current < q.limits.radMax)))
  {
    NextWithinExactly(q, rc, r);
    AdmitsExactly(q, rc.k);
    hide Next, WithinLimits, Admits, NrActive, NrActiveOf, AllShaped;
  }

  /** In a safe state no station is admitted wrongly. */
  lemma SafeAdmitsRightly(q: RadioState, rc: Call, r: RadioState)
    requires Safe(q) && WithinLimits(q) && Next(q, rc, r) && Activates(q, rc) && Admits(q, rc.k)
    ensures WithinLimits(r)
  {
    assert R.Unseen(q.aps[rc.k].st) <= 0;
    WrongAdmissionExactly(q, rc, r);
    hide Next, WithinLimits, Admits, NrActive, NrActiveOf, AllShaped;
  }

  lemma {:induction false} UnseenSum(aps: seq<Ap>)
    requires forall k :: 0 <= k < |aps| ==> R.Unseen(aps[k].st) <= 0
    ensures UnseenOf(aps) <= 0
  {
    hide NrActive;
    if aps != [] {
      assert R.Unseen(aps[|aps| - 1].st) <= 0;
      UnseenSum(aps[..|aps| - 1]);
    }
  }

  /** From a safe state the next one is safe if and only if the call is no raise, or a raise
      that both the counter and the total were high enough for. */
  lemma NextSafeExactly(q: RadioState, rc: Call, r: RadioState)
    requires Safe(q) && Next(q, rc, r)
    ensures Safe(r) <==> (RaisesOne(q, rc) ==> R.Unseen(q.aps[rc.k].st) < 0 && NrActiveOf(q.aps) < q.current)
  {
    NextShaped(q, rc, r);
    NextGap(q, rc, r);
    UnseenAfter(q, rc, r);
    if SyncsRadio(q, rc) {
      assert R.Unseen(q.aps[rc.k].st) <= 0;
      SyncUnseen(q, rc, r);
      UnseenSum(r.aps);
    }
    GainsOne(q, rc);
    hide Next, Sum, NrActiveOf, AllShaped, R.Unseen, Gain, SyncsRadio, Activates, RaisesOne;
  }

  /** Only a raise adds a station that its access point's counter does not count. */
  lemma UnseenAfter(q: RadioState, rc: Call, r: RadioState)
    requires Safe(q) && Next(q, rc, r)
    ensures (forall k :: 0 <= k < |r.aps| ==> R.Unseen(r.aps[k].st) <= 0) <==>
      (RaisesOne(q, rc) ==> R.Unseen(q.aps[rc.k].st) < 0)
  {
    hide R.Next, R.Shaped, R.Unseen, R.Syncs, R.INIT_AP, NrActiveOf, Sum;
    match rc
    case ApCall(k, c) =>
      assert R.Shaped(q.aps[k].st) && R.Unseen(q.aps[k].st) <= 0;
      ApUnseen(q.aps[k].st, c, r.aps[k].st);
      forall j | 0 <= j < |r.aps| && j != k ensures R.Unseen(r.aps[j].st) <= 0 {
        assert r.aps[j] == q.aps[j];
      }
    case JoinCall(limit) => NoneUnseen();
    case LeaveCall(k) =>
    case ApLimitCall(k, limit) => assert r.aps[k].st == q.aps[k].st;
    case LimitsCall(_) =>
  }

  lemma NoneUnseen()
    ensures R.Unseen(R.INIT_AP) == 0
  {
    InitCounted();
  }

  lemma ApUnseen(st: R.ApState, c: R.Call, r: R.ApState)
    requires R.Shaped(st) && R.Next(st, c, r) && R.Unseen(st) <= 0
    ensures R.Unseen(r) <= 0 <==> (R.Raises(st, c) ==> R.Unseen(st) < 0)
  {
    R.NextUnseen(st, c, r);
    R.DriftUnsynced(st, c);
    hide R.Next, R.Shaped, R.Unseen, R.Syncs;
  }

  // ---------- runs ----------

  /** All states of a run are within the limits if and only if every call of it fits. */
  lemma {:induction false} RunsWithinExactly(states: seq<RadioState>, calls: seq<Call>, n: nat)
    requires IsFirstRun(states, calls) && n <= |calls|
    ensures (forall i :: 0 <= i <= n ==> WithinLimits(states[i])) <==>
      forall i :: 0 <= i < n ==> Fits(states[i], calls[i])
  {
    hide Next, WithinLimits, Fits, AllShaped;
    if n == 0 {
      InitIsSafe(states[0]);
    } else {
      RunsWithinExactly(states, calls, n - 1);
      RunsStayShaped(states, calls, n - 1);
      assert Next(states[n - 1], calls[n - 1], states[n - 1 + 1]);
      if WithinLimits(states[n - 1]) { NextWithinExactly(states[n - 1], calls[n - 1], states[n]); }
    }
  }

  /** A call that admits stations only below the computed maximum, raises none, and changes
      maxima only to ones that cover the stations that are active. */
  predicate Careful(q: RadioState, rc: Call) {
    && !RaisesOne(q, rc)
    && (Activates(q, rc) ==> Admits(q, rc.k))
    && (rc.ApLimitCall? || rc.LimitsCall? ==> Fits(q, rc))
  }

  lemma NextCareful(q: RadioState, rc: Call, r: RadioState)
    requires Safe(q) && WithinLimits(q) && Next(q, rc, r) && Careful(q, rc)
    ensures Safe(r) && WithinLimits(r)
  {
    NextSafeExactly(q, rc, r);
    NextWithinExactly(q, rc, r);
    hide Next, WithinLimits, Admits, Safe, AllShaped, Room, Activates, RaisesOne;
    if Activates(q, rc) { SafeAdmitsRightly(q, rc, r); }
  }

  /** A run of such calls that starts safe and within the limits never exceeds the radio's
      maximum nor any access point's own limit, whatever is lost on the way. */
  lemma {:induction false} RunsStayWithinLimits(states: seq<RadioState>, calls: seq<Call>, n: nat)
    requires IsRun(states, calls) && n <= |calls| && Safe(states[0]) && WithinLimits(states[0])
    requires forall i :: 0 <= i < n ==> Careful(states[i], calls[i])
    ensures Safe(states[n]) && WithinLimits(states[n])
  {
    hide Next, Careful, Safe, WithinLimits;
    if n > 0 {
      RunsStayWithinLimits(states, calls, n - 1);
      assert Next(states[n - 1], calls[n - 1], states[n - 1 + 1]);
      NextCareful(states[n - 1], calls[n - 1], states[n]);
    }
  }

  /** The same for a radio that starts without access points. */
  lemma RunsFromStartStayWithinLimits(states: seq<RadioState>, calls: seq<Call>, n: nat)
    requires IsFirstRun(states, calls) && n <= |calls|
    requires forall i :: 0 <= i < n ==> Careful(states[i], calls[i])
    ensures WithinLimits(states[n])
  {
    hide Next, Careful, WithinLimits, Safe;
    InitIsSafe(states[0]);
    RunsStayWithinLimits(states, calls, n);
  }

  lemma InitIsSafe(q: RadioState)
    requires q == Init(q.limits)
    ensures Safe(q) && WithinLimits(q)
  {
  }

  // ---------- runs that go wrong ----------

  /** A radio with one access point. */
  function One(limit: int, st: R.ApState, current: int, l: Limits): RadioState {
    RadioState([Ap(limit, st)], current, l)
  }

  lemma OneSums(limit: int, st: R.ApState)
    ensures Sum([Ap(limit, st)]) == st.nrActive && NrActiveOf([Ap(limit, st)]) == NrActive(st.tab)
  {
    var aps := [Ap(limit, st)];
    assert aps[..0] == [];
  }

  lemma OneStep(limit: int, st: R.ApState, c: R.Call, r: R.ApState, current: int, l: Limits)
    requires R.Next(st, c, r)
    ensures
      Next(One(limit, st, current, l), ApCall(0, c), One(limit, r, if R.Syncs(st, c) then r.nrActive else current, l))
  {
    hide R.Next, R.Syncs;
    OneSums(limit, r);
    var q := One(limit, st, current, l);
    assert q.aps[0 := Ap(limit, r)] == [Ap(limit, r)];
  }

  lemma JoinStep(limit: int, l: Limits)
    ensures Next(Init(l), JoinCall(limit), One(limit, R.INIT_AP, 0, l))
  {
  }

  /** The total of a radio that has the one access point. */
  function TotalOf(states: seq<R.ApState>, calls: seq<R.Call>, n: nat): int
    requires n <= |calls| < |states|
  {
    if n == 0 then 0
    else if R.Syncs(states[n - 1], calls[n - 1]) then states[n].nrActive
    else TotalOf(states, calls, n - 1)
  }

  /** What one access point does alone, as calls on the radio. */
  function OneCalls(limit: int, calls: seq<R.Call>): (r: seq<Call>)
    ensures |r| == |calls| + 1
  {
    [JoinCall(limit)] + seq(|calls|, i requires 0 <= i < |calls| => ApCall(0, calls[i]))
  }

  function OneStates(limit: int, l: Limits, states: seq<R.ApState>, calls: seq<R.Call>): (r: seq<RadioState>)
    requires |states| == |calls| + 1
    ensures |r| == |states| + 1 && r[0] == Init(l)
    ensures forall i {:trigger states[i]} :: 0 <= i < |states| ==>
      r[i + 1] == One(limit, states[i], TotalOf(states, calls, i), l)
  {
    [Init(l)] + seq(|states|, i requires 0 <= i < |states| => One(limit, states[i], TotalOf(states, calls, i), l))
  }

  /** A run of one access point is a run of the radio that has no other. */
  lemma OneRun(limit: int, l: Limits, states: seq<R.ApState>, calls: seq<R.Call>)
    requires R.IsRun(states, calls) && states[0] == R.INIT_AP
    ensures IsFirstRun(OneStates(limit, l, states, calls), OneCalls(limit, calls))
  {
    hide Next, R.Next, R.INIT_AP, OneStates, OneCalls, One, TotalOf;
    var qs, rcs := OneStates(limit, l, states, calls), OneCalls(limit, calls);
    forall i | 0 <= i < |rcs| ensures Next(qs[i], rcs[i], qs[i + 1]) {
      if i == 0 { FirstStep(limit, l, states, calls); } else { LaterStep(limit, l, states, calls, i - 1); }
    }
  }

  lemma FirstStep(limit: int, l: Limits, states: seq<R.ApState>, calls: seq<R.Call>)
    requires R.IsRun(states, calls) && states[0] == R.INIT_AP
    ensures
      var qs := OneStates(limit, l, states, calls);
      Next(qs[0], OneCalls(limit, calls)[0], qs[1])
  {
    hide Next, R.Next, R.INIT_AP, OneStates;
    JoinStep(limit, l);
    assert OneStates(limit, l, states, calls)[0 + 1] == One(limit, states[0], 0, l);
  }

  lemma LaterStep(limit: int, l: Limits, states: seq<R.ApState>, calls: seq<R.Call>, i: nat)
    requires R.IsRun(states, calls) && i < |calls|
    ensures
      var qs := OneStates(limit, l, states, calls);
      Next(qs[i + 1], OneCalls(limit, calls)[i + 1], qs[i + 2])
  {
    hide Next, R.Next, R.Syncs, R.INIT_AP, OneStates;
    OneStep(limit, states[i], calls[i], states[i + 1], TotalOf(states, calls, i), l);
    var qs := OneStates(limit, l, states, calls);
    assert qs[i + 1] == One(limit, states[i], TotalOf(states, calls, i), l);
    assert qs[i + 1 + 1] == One(limit, states[i + 1], TotalOf(states, calls, i + 1), l);
  }

  lemma CreateNext(st: R.ApState, s: Sta, cap: nat)
    requires FirstWith(st.tab, s.mac).None? && |st.tab| < cap && R.New(st, s)
    ensures R.Next(st, R.CreateCall(s, cap), R.Appended(st, s))
  {
    R.FirstEntry(st, s, cap);
    hide R.Created;
  }

  /** The access point's side of RefusedForNobody. */
  lemma DestroyedThenNext(mac: nat, next: nat, now: int) returns (states: seq<R.ApState>, calls: seq<R.Call>)
    ensures R.IsRun(states, calls) && states[0] == R.INIT_AP
    ensures calls == [R.CreateCall(R.Fresh(0, mac), 2), R.SuccessCall(0, now), R.DestroyCall(0),
      R.CreateCall(R.Fresh(1, next), 2)]
    ensures states[4].tab == [R.Fresh(1, next)] && states[4].nrActive == 0 && TotalOf(states, calls, 4) == 1
  {
    hide R.Next, R.Conserved, R.Counted;
    var sts, cs := R.DestroyBreaksBalance(mac, 2, now);
    var d := R.Appended(sts[3], R.Fresh(1, next));
    CreateNext(sts[3], R.Fresh(1, next), 2);
    states, calls := sts + [d], cs + [R.CreateCall(R.Fresh(1, next), 2)];
    assert d.tab == [R.Fresh(1, next)];
    assert TotalOf(states, calls, 2) == 1;
    assert TotalOf(states, calls, 3) == 1;
  }

  /** One station connects and is destroyed directly. The radio's total stays at one, and with a
      maximum of one it refuses the next station, while none is active. */
  lemma RefusedForNobody(limit: int, hwMax: nat, mac: nat, next: nat, now: int)
    returns (qs: seq<RadioState>, calls: seq<R.Call>)
    requires ApLimit(limit, Limits(1, hwMax)) > 0
    ensures calls == [R.CreateCall(R.Fresh(0, mac), 2), R.SuccessCall(0, now), R.DestroyCall(0),
      R.CreateCall(R.Fresh(1, next), 2)]
    ensures IsFirstRun(qs, OneCalls(limit, calls)) && |qs[5].aps| == 1 && qs[5].limits == Limits(1, hwMax)
    ensures qs[5].current == 1 && NrActiveOf(qs[5].aps) == 0
    ensures !Admits(qs[5], 0) && Room(qs[5], 0)
  {
    hide Next, R.Next;
    var states;
    states, calls := DestroyedThenNext(mac, next, now);
    OneRun(limit, Limits(1, hwMax), states, calls);
    qs := OneStates(limit, Limits(1, hwMax), states, calls);
    assert qs[5] == One(limit, states[4], 1, Limits(1, hwMax));
    R.OneActive(R.Fresh(1, next));
    OneSums(limit, states[4]);
    hide IsFirstRun, NrActive, NrActiveOf;
  }

  lemma TwoActive(x: Sta, y: Sta)
    requires x.active && y.active
    ensures NrActive([x, y]) == 2
  {
    assert [x, y] == [x] + [y];
    R.CreateCount([x], y, (s: Sta) => s.active);
    R.OneActive(x);
  }

  lemma TryNext(st: R.ApState, i: nat, now: int)
    requires i < |st.tab|
    ensures R.Next(st, R.TryCall(i, now), R.Try(st, i, now))
  {
  }

  /** The access point's side of AdmittedTwice. */
  lemma RaisedThenNext(mac: nat, next: nat, now: int) returns (states: seq<R.ApState>, calls: seq<R.Call>)
    requires mac != next
    ensures R.IsRun(states, calls) && states[0] == R.INIT_AP
    ensures calls == [R.FindCall(R.Fresh(0, mac), false, 2), R.RaiseCall(0), R.SuccessCall(0, now),
      R.CreateCall(R.Fresh(1, next), 2), R.TryCall(1, now)]
    ensures NrActive(states[4].tab) == 1 && states[4].nrActive == 0 && |states[4].tab| == 2 && !states[4].tab[1].active
    ensures NrActive(states[5].tab) == 2 && TotalOf(states, calls, 4) == 0
  {
    hide R.Next, R.Conserved, R.Counted;
    var sts, cs := R.RaiseBreaksBoth(mac, 2, now);
    var x, y := sts[3].tab[0], R.Fresh(1, next);
    var d := R.Appended(sts[3], y);
    var e := R.Try(d, 1, now);
    CreateNext(sts[3], y, 2);
    TryNext(d, 1, now);
    assert d.tab == [x, y] && e.tab == [x, R.Activated(y, now)];
    TwoActive(x, R.Activated(y, now));
    R.CreateCount(sts[3].tab, y, (s: Sta) => s.active);
    states, calls := sts + [d, e], cs + [R.CreateCall(y, 2), R.TryCall(1, now)];
    assert TotalOf(states, calls, 1) == 0;
    assert TotalOf(states, calls, 2) == 0;
    assert TotalOf(states, calls, 3) == 0;
  }

  /** A station whose WDS interface is announced before any attempt is in no total, so a radio
      with a maximum of one admits another, and then has two that are active. */
  lemma AdmittedTwice(limit: int, hwMax: nat, mac: nat, next: nat, now: int)
    returns (qs: seq<RadioState>, calls: seq<R.Call>)
    requires ApLimit(limit, Limits(1, hwMax)) > 1 && mac != next
    ensures calls == [R.FindCall(R.Fresh(0, mac), false, 2), R.RaiseCall(0), R.SuccessCall(0, now),
      R.CreateCall(R.Fresh(1, next), 2), R.TryCall(1, now)]
    ensures IsFirstRun(qs, OneCalls(limit, calls)) && |qs[5].aps| == 1 && qs[6].limits == Limits(1, hwMax)
    ensures Activates(qs[5], ApCall(0, R.TryCall(1, now))) && Admits(qs[5], 0) && WithinLimits(qs[5])
    ensures NrActiveOf(qs[6].aps) == 2 && !WithinLimits(qs[6])
  {
    hide Next, R.Next;
    var states;
    states, calls := RaisedThenNext(mac, next, now);
    OneRun(limit, Limits(1, hwMax), states, calls);
    qs := OneStates(limit, Limits(1, hwMax), states, calls);
    assert qs[5] == One(limit, states[4], 0, Limits(1, hwMax));
    OneSums(limit, states[4]);
    OneSums(limit, states[5]);
    hide IsFirstRun, NrActive, NrActiveOf;
  }
}
