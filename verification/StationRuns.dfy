/** The life of the stations of one access point: connection attempts, successes, failures
    and disconnections, with the association counters they feed. */
module StationRuns {
  import opened Collections
  import opened StationTable

  /** `attempts` counts activations; the code does not store it. */
  datatype ApState = ApState(
    tab: Table,
    nrActive: int,
    success: nat,
    fail: nat,
    failSecurity: nat,
    disconnect: nat,
    attempts: nat)

  // ---------- effects on one entry ----------

  /** s_activate. */
  function Activated(s: Sta, now: int): Sta {
    s.(active := true, authed := false, secFail := false, changed := now)
  }

  function Authenticated(s: Sta, now: int): Sta {
    s.(authed := true, changed := now)
  }

  /** s_add_dc_sta, up to the clean-up. */
  function Disconnected(s: Sta, failSec: bool, now: int): Sta {
    s.(active := false, authed := false, secFail := s.secFail || (failSec && !s.authed), changed := now)
  }

  /** What an event says about a station that is active. */
  datatype Event = Connects(now: int) | Drops(failSec: bool, now: int) | FailsSecurity

  /** The station after the event. */
  function Marked(s: Sta, e: Event): Sta {
    match e
    case Connects(now) => if s.authed then s else Authenticated(s, now)
    case Drops(failSec, now) => Disconnected(s, failSec, now)
    case FailsSecurity => s.(secFail := true)
  }

  /** The association counters after the event. */
  function Charged(st: ApState, s: Sta, e: Event): ApState {
    match e
    case Connects(_) => if s.authed then st else st.(success := st.success + 1)
    case Drops(failSec, _) => ChargedDrop(st, s, failSec)
    case FailsSecurity => if s.secFail then st else st.(failSecurity := st.failSecurity + 1)
  }

  function ChargedDrop(st: ApState, s: Sta, failSec: bool): ApState {
    if s.authed then st.(disconnect := st.disconnect + 1)
    else if s.secFail then st
    else if failSec then st.(failSecurity := st.failSecurity + 1)
    else st.(fail := st.fail + 1)
  }

  // ---------- calls ----------

  /** wld_vap_syncNrDev, for the access point. */
  function Synced(st: ApState): ApState {
    st.(nrActive := NrActive(st.tab))
  }

  /** wld_ad_add_connection_try. */
  function Try(st: ApState, i: nat, now: int): ApState
    requires i < |st.tab|
  {
    if st.tab[i].active then st
    else Synced(st.(tab := st.tab[i := Activated(st.tab[i], now)], attempts := st.attempts + 1))
  }

  lemma TryActive(st: ApState, i: nat, now: int)
    requires i < |st.tab| && st.tab[i].active
    ensures Try(st, i, now) == st
  {
  }

  /** wld_ad_add_connection_success. */
  function Success(st: ApState, i: nat, now: int): ApState
    requires i < |st.tab|
  {
    if st.tab[i].authed then st
    else
      var st1 := Try(st, i, now);
      st1.(tab := st1.tab[i := Authenticated(st1.tab[i], now)], success := st1.success + 1)
  }

  /** The counters and the entry after s_add_dc_sta for an active station, before the clean-up. */
  function BeforeCleanup(st: ApState, i: nat, failSec: bool, now: int): ApState
    requires i < |st.tab|
  {
    ChargedDrop(st, st.tab[i], failSec).(tab := st.tab[i := Disconnected(st.tab[i], failSec, now)])
  }

  /** s_add_dc_sta: the clean-up may evict entries, this one included. */
  ghost predicate Dropped(st: ApState, i: nat, failSec: bool, now: int, r: ApState)
    requires i < |st.tab|
  {
    if !st.tab[i].active then r == st
    else
      exists tab :: AfterCleanup(BeforeCleanup(st, i, failSec, now).tab, tab)
                    && r == Synced(BeforeCleanup(st, i, failSec, now).(tab := tab))
  }

  /** wld_ad_add_sec_failNoDc. */
  function SecFailNoDc(st: ApState, i: nat): ApState
    requires i < |st.tab|
  {
    if st.tab[i].active && !st.tab[i].secFail
    then st.(tab := st.tab[i := st.tab[i].(secFail := true)], failSecurity := st.failSecurity + 1)
    else st
  }

  /** wld_ad_destroy_associatedDevice. */
  function Destroyed(st: ApState, i: nat): ApState
    requires i < |st.tab|
  {
    st.(tab := Drop(st.tab, {st.tab[i].id}), nrActive := st.nrActive - if st.tab[i].active then 1 else 0)
  }

  /** A new, inactive entry at the end of the table. */
  function Appended(st: ApState, s: Sta): ApState {
    st.(tab := st.tab + [s])
  }

  /** wld_ad_create_associatedDevice: the address is finalised, then it gets an entry if the array of `cap` slots
      has room. */
  ghost predicate Created(st: ApState, s: Sta, cap: nat, r: ApState) {
    exists tab :: Finalized(st.tab, s.mac, tab) && r == AppendedWithin(st.(tab := tab), s, cap)
  }

  function AppendedWithin(st: ApState, s: Sta, cap: nat): ApState {
    if |st.tab| < cap then Appended(st, s) else st
  }

  /** wld_vap_findOrCreateAssociatedDevice: an address found here or `elsewhere` changes nothing; broadcast is
      never found. */
  ghost predicate FoundOrCreated(st: ApState, s: Sta, elsewhere: bool, cap: nat, r: ApState) {
    if s.mac != BROADCAST && (elsewhere || FirstWith(st.tab, s.mac).Some?) then r == st else Created(st, s, cap, r)
  }

  /** The active flag alone, as the handler of a WDS interface sets it. */
  function Raised(st: ApState, i: nat): ApState
    requires i < |st.tab|
  {
    st.(tab := st.tab[i := st.tab[i].(active := true)])
  }

  /** An event of an entry handled by the access point of a neighbour link, which charges its own counters. */
  function Lent(st: ApState, i: nat, e: Event): ApState
    requires i < |st.tab|
  {
    st.(tab := st.tab[i := Marked(st.tab[i], e)])
  }

  /** The same event at that access point: the station is not in its table. */
  ghost predicate Visited(st: ApState, s: Sta, e: Event, r: ApState) {
    if e.Drops? then exists tab :: AfterCleanup(st.tab, tab) && r == Synced(Charged(st, s, e).(tab := tab))
    else r == Charged(st, s, e)
  }

  /** s_setResetCounters_pwf. */
  function Reset(st: ApState): ApState {
    st.(success := 0, fail := 0, failSecurity := 0, disconnect := 0)
  }

  datatype Call =
    | TryCall(i: nat, now: int)
    | SuccessCall(i: nat, now: int)
    | DropCall(i: nat, failSec: bool, now: int)
    | SecFailCall(i: nat)
    | CreateCall(s: Sta, cap: nat)
    | FindCall(s: Sta, elsewhere: bool, cap: nat)
    | DestroyCall(i: nat)
    | NotifyCall(i: nat, pending: bool)
    | HoldCall(i: nat, removable: bool)
    | RaiseCall(i: nat)
    | LentCall(i: nat, e: Event)
    | GuestCall(s: Sta, e: Event)
    | CleanupCall
    | ResetCall
    | SyncCall

  /** An entry as it is created, with an id not given out before. */
  predicate New(st: ApState, s: Sta) {
    !s.active && !s.authed && forall x :: x in st.tab ==> x.id != s.id
  }

  /** One call; only the clean-ups inside leave a choice. Among the stations of neighbour
      links only active ones are looked up. */
  ghost predicate Next(st: ApState, c: Call, r: ApState) {
    match c
    case TryCall(i, now) => i < |st.tab| && r == Try(st, i, now)
    case SuccessCall(i, now) => i < |st.tab| && r == Success(st, i, now)
    case DropCall(i, failSec, now) => i < |st.tab| && Dropped(st, i, failSec, now, r)
    case SecFailCall(i) => i < |st.tab| && r == SecFailNoDc(st, i)
    case CreateCall(s, cap) => New(st, s) && Created(st, s, cap, r)
    case FindCall(s, elsewhere, cap) => New(st, s) && FoundOrCreated(st, s, elsewhere, cap, r)
    case DestroyCall(i) => i < |st.tab| && r == Destroyed(st, i)
    case NotifyCall(i, pending) => i < |st.tab| && r == st.(tab := st.tab[i := st.tab[i].(pending := pending)])
    case HoldCall(i, removable) => i < |st.tab| && r == st.(tab := st.tab[i := st.tab[i].(removable := removable)])
    case RaiseCall(i) => i < |st.tab| && r == Raised(st, i)
    case LentCall(i, e) => i < |st.tab| && st.tab[i].active && r == Lent(st, i, e)
    case GuestCall(s, e) => s.active && Visited(st, s, e, r)
    case CleanupCall => AfterCleanup(st.tab, r.tab) && r == st.(tab := r.tab)
    case ResetCall => r == Reset(st)
    case SyncCall => r == Synced(st)
  }

  lemma SuccessNext(st: ApState, i: nat, now: int)
    requires i < |st.tab|
    ensures Next(st, SuccessCall(i, now), Success(st, i, now))
    ensures Syncs(st, SuccessCall(i, now)) <==> !st.tab[i].active && !st.tab[i].authed
  {
  }

  /** The success of an active entry touches neither the counter of active entries nor the attempts. */
  lemma NextSuccess(st: ApState, i: nat, now: int, r: ApState)
    requires Next(st, SuccessCall(i, now), r)
    ensures i < |st.tab| && r == Success(st, i, now)
    ensures st.tab[i].active ==> r.nrActive == st.nrActive && r.attempts == st.attempts
  {
  }

  lemma NextCharged(st: ApState, s: Sta, e: Event, r: ApState)
    requires Next(st, GuestCall(s, e), r) && !e.Drops?
    ensures r.nrActive == st.nrActive && r.attempts == st.attempts
  {
  }

  lemma DroppedNext(st: ApState, i: nat, failSec: bool, now: int, r: ApState)
    requires i < |st.tab| && Dropped(st, i, failSec, now, r)
    ensures Next(st, DropCall(i, failSec, now), r)
    ensures Syncs(st, DropCall(i, failSec, now)) <==> st.tab[i].active
  {
    hide Dropped;
  }

  lemma NextDropped(st: ApState, i: nat, failSec: bool, now: int, r: ApState)
    requires Next(st, DropCall(i, failSec, now), r)
    ensures i < |st.tab| && Dropped(st, i, failSec, now, r)
  {
    hide Dropped;
  }

  lemma SecFailNext(st: ApState, i: nat)
    requires i < |st.tab|
    ensures Next(st, SecFailCall(i), SecFailNoDc(st, i))
  {
  }

  lemma ResetNext(st: ApState)
    ensures Next(st, ResetCall, Reset(st))
  {
  }

  lemma LentNext(st: ApState, i: nat, e: Event)
    requires i < |st.tab| && st.tab[i].active
    ensures Next(st, LentCall(i, e), Lent(st, i, e))
  {
  }

  lemma VisitedNext(st: ApState, s: Sta, e: Event, r: ApState)
    requires s.active && Visited(st, s, e, r)
    ensures Next(st, GuestCall(s, e), r) && (Syncs(st, GuestCall(s, e)) <==> e.Drops?)
  {
    hide Visited;
  }

  lemma ChargedNext(st: ApState, s: Sta, e: Event)
    requires s.active && !e.Drops?
    ensures Next(st, GuestCall(s, e), Charged(st, s, e)) && !Syncs(st, GuestCall(s, e))
  {
  }

  // ---------- what every call keeps ----------

  function NrAuthed(tab: Table): nat { CountIf(tab, (s: Sta) => s.authed) }

  function NrUnauthed(tab: Table): nat { CountIf(tab, (s: Sta) => s.active && !s.authed) }

  function NrUnfailed(tab: Table): nat { CountIf(tab, (s: Sta) => s.active && !s.secFail) }

  function NrUndecided(tab: Table): nat { CountIf(tab, (s: Sta) => s.active && !s.authed && !s.secFail) }

  /** Ids are distinct, and an authenticated entry is active. */
  ghost predicate Shaped(st: ApState) {
    DistinctIds(st.tab) && forall s :: s in st.tab && s.authed ==> s.active
  }

  /** The active entries that the counter does not count; negative when it counts inactive ones. */
  function Unseen(st: ApState): int {
    NrActive(st.tab) - st.nrActive
  }

  /** And the counter of active entries is current. */
  ghost predicate Counted(st: ApState) {
    Shaped(st) && Unseen(st) == 0
  }

  /** Every success has ended in a disconnection, or its station is still authenticated. */
  predicate SuccessesAddUp(st: ApState) {
    st.success == st.disconnect + NrAuthed(st.tab)
  }

  /** The association counters balance. */
  predicate Conserved(st: ApState) {
    && SuccessesAddUp(st)
    && st.success + st.fail + NrUnauthed(st.tab) <= st.attempts
    && st.fail + st.failSecurity + NrUnfailed(st.tab) <= st.attempts
    && st.attempts <= st.success + st.fail + st.failSecurity + NrUndecided(st.tab)
  }

  /** There are no attempts beyond those that succeeded, failed, or are going on. */
  predicate NoneIdle(st: ApState) {
    st.success + st.fail + NrUnauthed(st.tab) == st.attempts
  }

  /** There are no attempts beyond those that failed in either way, or have not failed security yet. */
  predicate NoneSecure(st: ApState) {
    st.fail + st.failSecurity + NrUnfailed(st.tab) == st.attempts
  }

  /** Every undecided entry is needed to account for the attempts. */
  predicate NoneSpare(st: ApState) {
    st.attempts == st.success + st.fail + st.failSecurity + NrUndecided(st.tab)
  }

  /** The call ends in wld_vap_syncNrDev. */
  predicate Syncs(st: ApState, c: Call) {
    match c
    case TryCall(i, _) => i < |st.tab| && !st.tab[i].active
    case SuccessCall(i, _) => i < |st.tab| && !st.tab[i].active && !st.tab[i].authed
    case DropCall(i, _, _) => i < |st.tab| && st.tab[i].active
    case GuestCall(_, e) => e.Drops?
    case SyncCall => true
    case _ => false
  }

  /** The call destroys an active station directly, without disconnecting it. */
  predicate DestroysActive(st: ApState, c: Call) {
    c.DestroyCall? && c.i < |st.tab| && st.tab[c.i].active
  }

  /** The call sets the active flag of an inactive station, and nothing else. */
  predicate Raises(st: ApState, c: Call) {
    c.RaiseCall? && c.i < |st.tab| && !st.tab[c.i].active
  }

  /** A neighbour link disconnects the station. */
  predicate LosesLent(st: ApState, c: Call) {
    c.LentCall? && c.i < |st.tab| && st.tab[c.i].active && c.e.Drops?
  }

  /** What a call adds to the active entries. */
  function Gain(st: ApState, c: Call): int {
    if Raises(st, c) || ((c.TryCall? || c.SuccessCall?) && Syncs(st, c)) then 1
    else if DestroysActive(st, c) || LosesLent(st, c) || (c.DropCall? && Syncs(st, c)) then -1
    else 0
  }

  /** What it adds to them behind the counter's back. */
  function Drift(st: ApState, c: Call): int {
    if Raises(st, c) then 1 else if LosesLent(st, c) then -1 else 0
  }

  /** How each count changes when one entry is replaced. */
  lemma ReplaceCounts(tab: Table, i: nat, s: Sta)
    requires i < |tab|
    ensures
      var t := tab[i];
      && NrActive(tab[i := s]) == NrActive(tab) - B(t.active) + B(s.active)
      && NrAuthed(tab[i := s]) == NrAuthed(tab) - B(t.authed) + B(s.authed)
      && NrUnauthed(tab[i := s]) == NrUnauthed(tab) - B(t.active && !t.authed) + B(s.active && !s.authed)
      && NrUnfailed(tab[i := s]) == NrUnfailed(tab) - B(t.active && !t.secFail) + B(s.active && !s.secFail)
      && NrUndecided(tab[i := s]) == NrUndecided(tab) - B(t.active && !t.authed && !t.secFail) +
        B(s.active && !s.authed && !s.secFail)
  {
    CountIfUpdate(tab, i, s, (s: Sta) => s.active);
    CountIfUpdate(tab, i, s, (s: Sta) => s.authed);
    CountIfUpdate(tab, i, s, (s: Sta) => s.active && !s.authed);
    CountIfUpdate(tab, i, s, (s: Sta) => s.active && !s.secFail);
    CountIfUpdate(tab, i, s, (s: Sta) => s.active && !s.authed && !s.secFail);
  }

  function B(b: bool): nat { if b then 1 else 0 }

  lemma ReplaceShaped(st: ApState, i: nat, s: Sta)
    requires Shaped(st) && i < |st.tab| && s.id == st.tab[i].id && (s.authed ==> s.active)
    ensures Shaped(st.(tab := st.tab[i := s]))
  {
    assert forall x :: x in st.tab[i := s] ==> x in st.tab || x == s;
  }

  /** A call that moves the active entries by `gain` and keeps every balance. */
  ghost predicate Keeps(st: ApState, r: ApState, gain: int) {
    && Shaped(r) && NrActive(r.tab) == NrActive(st.tab) + gain
    && (SuccessesAddUp(st) ==> SuccessesAddUp(r))
    && (Conserved(st) ==> Conserved(r))
  }

  lemma TryKeeps(st: ApState, i: nat, now: int)
    requires Shaped(st) && i < |st.tab|
    ensures Keeps(st, Try(st, i, now), Gain(st, TryCall(i, now)))
    ensures |Try(st, i, now).tab| == |st.tab| && Try(st, i, now).tab[i].active
  {
    assert st.tab[i] in st.tab;
    ReplaceCounts(st.tab, i, Activated(st.tab[i], now));
    ReplaceShaped(st, i, Activated(st.tab[i], now));
    hide DistinctIds, CountIf;
  }

  lemma SuccessKeeps(st: ApState, i: nat, now: int)
    requires Shaped(st) && i < |st.tab|
    ensures Keeps(st, Success(st, i, now), Gain(st, SuccessCall(i, now)))
  {
    TryKeeps(st, i, now);
    hide Try, DistinctIds, CountIf;
    var st1 := Try(st, i, now);
    if !st.tab[i].authed {
      assert !st1.tab[i].authed by { TryUnauthed(st, i, now); }
      ReplaceCounts(st1.tab, i, Authenticated(st1.tab[i], now));
      ReplaceShaped(st1, i, Authenticated(st1.tab[i], now));
    }
  }

  lemma TryUnauthed(st: ApState, i: nat, now: int)
    requires i < |st.tab| && !st.tab[i].authed
    ensures !Try(st, i, now).tab[i].authed
  {
  }

  lemma SecFailKeeps(st: ApState, i: nat)
    requires Shaped(st) && i < |st.tab|
    ensures Keeps(st, SecFailNoDc(st, i), 0)
  {
    assert st.tab[i] in st.tab;
    ReplaceCounts(st.tab, i, st.tab[i].(secFail := true));
    ReplaceShaped(st, i, st.tab[i].(secFail := true));
    hide DistinctIds, CountIf;
  }

  /** Evictions take inactive entries, so no count of active ones changes. */
  lemma EvictionKeeps(st: ApState, tab: Table)
    requires Shaped(st) && AfterCleanup(st.tab, tab)
    ensures Shaped(st.(tab := tab)) && NrActive(tab) == NrActive(st.tab) && NrAuthed(tab) == NrAuthed(st.tab)
    ensures NrUnauthed(tab) == NrUnauthed(st.tab) && NrUnfailed(tab) == NrUnfailed(st.tab)
    ensures NrUndecided(tab) == NrUndecided(st.tab)
  {
    AfterCleanupPartly(st.tab, tab);
    hide AfterCleanup;
    CleanupKeepsActive(st.tab, tab, (s: Sta) => s.active);
    CleanupKeepsActive(st.tab, tab, (s: Sta) => s.authed);
    CleanupKeepsActive(st.tab, tab, (s: Sta) => s.active && !s.authed);
    CleanupKeepsActive(st.tab, tab, (s: Sta) => s.active && !s.secFail);
    CleanupKeepsActive(st.tab, tab, (s: Sta) => s.active && !s.authed && !s.secFail);
  }

  lemma CleanupKeeps(st: ApState, tab: Table)
    requires Shaped(st) && AfterCleanup(st.tab, tab)
    ensures Keeps(st, st.(tab := tab), 0)
  {
    EvictionKeeps(st, tab);
    hide CountIf, AfterCleanup, Shaped;
  }

  lemma DropKeeps(st: ApState, i: nat, failSec: bool, now: int, r: ApState)
    requires Shaped(st) && i < |st.tab| && Dropped(st, i, failSec, now, r)
    ensures Keeps(st, r, Gain(st, DropCall(i, failSec, now)))
    ensures r != st ==> Unseen(r) == 0
  {
    hide CountIf, AfterCleanup;
    var s := st.tab[i];
    if s.active {
      var st1 := BeforeCleanup(st, i, failSec, now);
      var tab :| AfterCleanup(st1.tab, tab) && r == Synced(st1.(tab := tab));
      ReplaceCounts(st.tab, i, Disconnected(s, failSec, now));
      ReplaceShaped(st, i, Disconnected(s, failSec, now));
      EvictionKeeps(st1, tab);
    }
  }

  /** A disconnection that is no security failure moves its station from the authenticated to
      the disconnections, or from the undecided to the failures. */
  lemma DropPays(st: ApState, i: nat, now: int, r: ApState)
    requires Shaped(st) && i < |st.tab| && Dropped(st, i, false, now, r)
    ensures Pays(st, r)
  {
    hide CountIf, AfterCleanup;
    var s := st.tab[i];
    if s.active {
      var st1 := BeforeCleanup(st, i, false, now);
      var tab :| AfterCleanup(st1.tab, tab) && r == Synced(st1.(tab := tab));
      ReplaceCounts(st.tab, i, Disconnected(s, false, now));
      ReplaceShaped(st, i, Disconnected(s, false, now));
      EvictionKeeps(st1, tab);
    }
  }

  ghost predicate Pays(st: ApState, r: ApState) {
    && Shaped(r)
    && r.disconnect + NrAuthed(r.tab) == st.disconnect + NrAuthed(st.tab)
    && r.fail + NrUndecided(r.tab) == st.fail + NrUndecided(st.tab)
    && r.failSecurity == st.failSecurity && r.success == st.success && r.attempts == st.attempts
  }

  /** When no station is left active, each authenticated one has been charged as a
      disconnection and each undecided one as a failure. */
  lemma AllPaid(st: ApState, r: ApState)
    requires Pays(st, r) && InactiveFrom(r.tab, 0)
    ensures r.disconnect == st.disconnect + NrAuthed(st.tab) && r.fail == st.fail + NrUndecided(st.tab)
    ensures r.failSecurity == st.failSecurity && r.success == st.success && r.attempts == st.attempts
  {
    CountIfBound(r.tab, (s: Sta) => s.authed);
    CountIfBound(r.tab, (s: Sta) => s.active && !s.authed && !s.secFail);
    hide CountIf, DistinctIds;
  }

  lemma DestroyCounts(tab: Table, i: nat)
    requires DistinctIds(tab) && i < |tab|
    ensures
      var s, r := tab[i], Drop(tab, {tab[i].id});
      && NrActive(r) == NrActive(tab) - B(s.active)
      && NrAuthed(r) == NrAuthed(tab) - B(s.authed)
      && NrUnauthed(r) == NrUnauthed(tab) - B(s.active && !s.authed)
      && NrUnfailed(r) == NrUnfailed(tab) - B(s.active && !s.secFail)
      && NrUndecided(r) == NrUndecided(tab) - B(s.active && !s.authed && !s.secFail)
  {
    RemoveIsDrop(tab, i);
    RemoveCount(tab, i, (s: Sta) => s.active);
    RemoveCount(tab, i, (s: Sta) => s.authed);
    RemoveCount(tab, i, (s: Sta) => s.active && !s.authed);
    RemoveCount(tab, i, (s: Sta) => s.active && !s.secFail);
    RemoveCount(tab, i, (s: Sta) => s.active && !s.authed && !s.secFail);
  }

  lemma RemoveCount(tab: Table, i: nat, p: Sta -> bool)
    requires i < |tab|
    ensures CountIf(tab[..i] + tab[i + 1..], p) == CountIf(tab, p) - B(p(tab[i]))
  {
    hide CountIf;
    assert tab == tab[..i] + ([tab[i]] + tab[i + 1..]);
    CountIfAppend(tab[..i], tab[i + 1..], p);
    CountIfAppend(tab[..i], [tab[i]] + tab[i + 1..], p);
    CountIfAppend([tab[i]], tab[i + 1..], p);
    CountIfOne(tab[i], p);
  }

  lemma AppendKeeps(st: ApState, s: Sta)
    requires Shaped(st) && New(st, s)
    ensures Keeps(st, Appended(st, s), 0)
  {
    CreateCount(st.tab, s, (s: Sta) => s.active);
    CreateCount(st.tab, s, (s: Sta) => s.authed);
    CreateCount(st.tab, s, (s: Sta) => s.active && !s.authed);
    CreateCount(st.tab, s, (s: Sta) => s.active && !s.secFail);
    CreateCount(st.tab, s, (s: Sta) => s.active && !s.authed && !s.secFail);
    hide CountIf;
  }

  lemma CreateCount(tab: Table, s: Sta, p: Sta -> bool)
    ensures CountIf(tab + [s], p) == CountIf(tab, p) + B(p(s))
  {
    CountIfAppend(tab, [s], p);
    CountIfOne(s, p);
  }

  /** The pending and removable flags of an entry count nowhere. */
  lemma FlagsKeep(st: ApState, i: nat, pending: bool, removable: bool)
    requires Shaped(st) && i < |st.tab|
    ensures Keeps(st, st.(tab := st.tab[i := st.tab[i].(pending := pending, removable := removable)]), 0)
  {
    var s := st.tab[i].(pending := pending, removable := removable);
    assert st.tab[i] in st.tab;
    ReplaceCounts(st.tab, i, s);
    ReplaceShaped(st, i, s);
    hide Shaped, CountIf;
  }

  lemma FinalizedKeeps(st: ApState, mac: nat, tab: Table)
    requires Shaped(st) && Finalized(st.tab, mac, tab)
    ensures Keeps(st, st.(tab := tab), 0)
    ensures forall x :: x in tab ==> exists y :: y in st.tab && y.id == x.id
  {
    hide Shaped, Conserved, NrActive, SuccessesAddUp, AfterCleanup;
    if tab == st.tab {
      assert st.(tab := tab) == st;
    } else {
      var i := FirstWith(st.tab, mac).value;
      var st1 := st.(tab := st.tab[i := st.tab[i].(pending := false)]);
      FlagsKeep(st, i, false, st.tab[i].removable);
      CleanupKeeps(st1, tab);
      AfterCleanupPartly(st1.tab, tab);
      PartlyMembers(st1.tab, tab);
      assert st.tab[i] in st.tab;
    }
  }

  lemma CreateKeeps(st: ApState, s: Sta, cap: nat, r: ApState)
    requires Shaped(st) && New(st, s) && Created(st, s, cap, r)
    ensures Keeps(st, r, 0) && r == st.(tab := r.tab)
  {
    hide Shaped, Conserved, NrActive, SuccessesAddUp, Finalized;
    var tab :| Finalized(st.tab, s.mac, tab) && r == AppendedWithin(st.(tab := tab), s, cap);
    FinalizedKeeps(st, s.mac, tab);
    if |tab| < cap { AppendKeeps(st.(tab := tab), s); }
  }

  // ---------- calls that can break the balance ----------

  /** Losing this entry without a counter breaks the balance: it is authenticated, or
      undecided and needed to account for the attempts. */
  predicate Counts(st: ApState, i: nat)
    requires i < |st.tab|
  {
    st.tab[i].authed || (!st.tab[i].secFail && NoneSpare(st))
  }

  /** The calls after which counters that balanced do not. */
  predicate Unbalances(st: ApState, c: Call) {
    match c
    case DestroyCall(i) => i < |st.tab| && st.tab[i].active && Counts(st, i)
    case RaiseCall(i) => i < |st.tab| && !st.tab[i].active && (NoneIdle(st) || (!st.tab[i].secFail && NoneSecure(st)))
    case LentCall(i, e) => i < |st.tab| && LendingUnbalances(st, i, e)
    case GuestCall(s, e) => VisitUnbalances(st, s, e)
    case ResetCall => st.success > 0 || st.fail > 0 || st.failSecurity > 0 || st.disconnect > 0
    case _ => false
  }

  predicate LendingUnbalances(st: ApState, i: nat, e: Event)
    requires i < |st.tab|
  {
    match e
    case Connects(_) => !st.tab[i].authed
    case Drops(_, _) => Counts(st, i)
    case FailsSecurity => !st.tab[i].secFail && !st.tab[i].authed && NoneSpare(st)
  }

  predicate VisitUnbalances(st: ApState, s: Sta, e: Event) {
    match e
    case Connects(_) => !s.authed
    case Drops(failSec, _) => s.authed || (!s.secFail && (NoneSecure(st) || (!failSec && NoneIdle(st))))
    case FailsSecurity => !s.secFail && NoneSecure(st)
  }

  /** The calls after which successes that added up do not. */
  predicate Miscounts(st: ApState, c: Call) {
    match c
    case DestroyCall(i) => i < |st.tab| && st.tab[i].authed
    case LentCall(i, e) => i < |st.tab| && if st.tab[i].authed then e.Drops? else e.Connects?
    case GuestCall(s, e) => if s.authed then e.Drops? else e.Connects?
    case ResetCall => st.success != st.disconnect
    case _ => false
  }

  /** A call moves the active entries by `gain`, and breaks the balance exactly as said. */
  ghost predicate Moves(st: ApState, c: Call, r: ApState) {
    && Shaped(r) && NrActive(r.tab) == NrActive(st.tab) + Gain(st, c)
    && (SuccessesAddUp(st) ==> (SuccessesAddUp(r) <==> !Miscounts(st, c)))
    && (Conserved(st) ==> (Conserved(r) <==> !Unbalances(st, c)))
  }

  lemma DestroyMoves(st: ApState, i: nat)
    requires Shaped(st) && i < |st.tab|
    ensures Moves(st, DestroyCall(i), Destroyed(st, i))
  {
    hide Shaped, CountIf, Drop;
    assert DistinctIds(st.tab) && (st.tab[i].authed ==> st.tab[i].active) by { ShapedEntry(st, i); }
    DestroyCounts(st.tab, i);
    DestroyShaped(st, i);
    hide DistinctIds;
  }

  lemma ShapedEntry(st: ApState, i: nat)
    requires Shaped(st) && i < |st.tab|
    ensures DistinctIds(st.tab) && (st.tab[i].authed ==> st.tab[i].active)
  {
    assert st.tab[i] in st.tab;
  }

  lemma DestroyShaped(st: ApState, i: nat)
    requires Shaped(st) && i < |st.tab|
    ensures Shaped(Destroyed(st, i))
  {
    DropDistinct(st.tab, {st.tab[i].id});
    DropMembers(st.tab, {st.tab[i].id});
    hide DistinctIds, Drop;
  }

  /** After a raise the first law and the last still hold; the two between them hold exactly
      when they had room. */
  lemma RaiseLaws(st: ApState, i: nat)
    requires Shaped(st) && Conserved(st) && i < |st.tab|
    ensures
      var s, r := st.tab[i], Raised(st, i);
      && Shaped(r) && SuccessesAddUp(r)
      && (r.success + r.fail + NrUnauthed(r.tab) <= r.attempts <==> s.active || !NoneIdle(st))
      && (r.fail + r.failSecurity + NrUnfailed(r.tab) <= r.attempts <==> s.active || s.secFail || !NoneSecure(st))
      && r.attempts <= r.success + r.fail + r.failSecurity + NrUndecided(r.tab)
  {
    var s := st.tab[i];
    assert s in st.tab;
    ReplaceCounts(st.tab, i, s.(active := true));
    ReplaceShaped(st, i, s.(active := true));
    hide DistinctIds, CountIf;
  }

  lemma RaiseMoves(st: ApState, i: nat)
    requires Shaped(st) && i < |st.tab|
    ensures Moves(st, RaiseCall(i), Raised(st, i))
  {
    var s := st.tab[i].(active := true);
    assert st.tab[i] in st.tab;
    ReplaceCounts(st.tab, i, s);
    ReplaceShaped(st, i, s);
    hide DistinctIds, CountIf;
  }

  lemma LendingMoves(st: ApState, i: nat, e: Event)
    requires Shaped(st) && i < |st.tab| && st.tab[i].active
    ensures Moves(st, LentCall(i, e), Lent(st, i, e))
  {
    ReplaceCounts(st.tab, i, Marked(st.tab[i], e));
    ReplaceShaped(st, i, Marked(st.tab[i], e));
    hide Shaped, CountIf;
  }

  /** The table after the event of a neighbour's station is cleaned up, or as it was. */
  lemma VisitLeaves(st: ApState, s: Sta, e: Event, r: ApState)
    requires Visited(st, s, e, r)
    ensures AfterCleanup(st.tab, r.tab) || r.tab == st.tab
    ensures r == Charged(st, s, e).(tab := r.tab, nrActive := r.nrActive)
    ensures r.nrActive == if e.Drops? then NrActive(r.tab) else st.nrActive
  {
    hide AfterCleanup, CountIf;
  }

  lemma VisitMoves(st: ApState, s: Sta, e: Event, r: ApState)
    requires Shaped(st) && Visited(st, s, e, r)
    ensures Moves(st, GuestCall(s, e), r)
  {
    VisitLeaves(st, s, e, r);
    VisitCounts(st, s, e, r);
    hide AfterCleanup, Shaped, Visited, NrActive, NrAuthed, NrUnauthed, NrUnfailed, NrUndecided;
  }

  lemma VisitCounts(st: ApState, s: Sta, e: Event, r: ApState)
    requires Shaped(st) && Visited(st, s, e, r)
    ensures Shaped(r) && NrActive(r.tab) == NrActive(st.tab) && NrAuthed(r.tab) == NrAuthed(st.tab)
    ensures NrUnauthed(r.tab) == NrUnauthed(st.tab) && NrUnfailed(r.tab) == NrUnfailed(st.tab)
    ensures NrUndecided(r.tab) == NrUndecided(st.tab)
  {
    VisitLeaves(st, s, e, r);
    hide AfterCleanup, CountIf, Shaped, Visited, Charged;
    if r.tab != st.tab {
      EvictionKeeps(st, r.tab);
      ShapedTable(st.(tab := r.tab), r);
    } else {
      ShapedTable(st, r);
    }
  }

  lemma ShapedTable(st: ApState, r: ApState)
    requires r.tab == st.tab
    ensures Shaped(r) <==> Shaped(st)
  {
  }

  lemma ResetMoves(st: ApState)
    requires Shaped(st)
    ensures Moves(st, ResetCall, Reset(st))
  {
    UndecidedAre(st.tab);
    ShapedTable(st, Reset(st));
    hide Shaped, CountIf;
  }

  lemma UndecidedAre(tab: Table)
    ensures NrUndecided(tab) <= NrUnauthed(tab) && NrUndecided(tab) <= NrUnfailed(tab)
  {
    var none := (s: Sta) => false;
    var p := (s: Sta) => s.active && !s.authed && !s.secFail;
    CountIfBound(tab, none);
    CountIfOr(tab, p, (s: Sta) => s.active && !s.authed, none);
    CountIfOr(tab, p, (s: Sta) => s.active && !s.secFail, none);
  }

  /** Every call keeps the shape of the table, and the balance of the association counters
      exactly when it is none of those that break it. */
  lemma NextMoves(st: ApState, c: Call, r: ApState)
    requires Shaped(st) && Next(st, c, r)
    ensures Moves(st, c, r)
  {
    hide Shaped, Conserved, NrActive, SuccessesAddUp, Try, Success, Dropped, SecFailNoDc, Destroyed, Created,
      AfterCleanup, Synced, NoneIdle, NoneSecure, NoneSpare;
    match c
    case TryCall(i, now) => TryKeeps(st, i, now);
    case SuccessCall(i, now) => SuccessKeeps(st, i, now);
    case DropCall(i, failSec, now) => DropKeeps(st, i, failSec, now, r);
    case SecFailCall(i) => SecFailKeeps(st, i);
    case CreateCall(s, cap) => CreateKeeps(st, s, cap, r);
    case FindCall(s, elsewhere, cap) => if r != st { CreateKeeps(st, s, cap, r); }
    case DestroyCall(i) => DestroyMoves(st, i);
    case NotifyCall(i, pending) => FlagsKeep(st, i, pending, st.tab[i].removable);
    case HoldCall(i, removable) => FlagsKeep(st, i, st.tab[i].pending, removable);
    case RaiseCall(i) => RaiseMoves(st, i);
    case LentCall(i, e) => LendingMoves(st, i, e);
    case GuestCall(s, e) => VisitMoves(st, s, e, r);
    case CleanupCall => CleanupKeeps(st, r.tab);
    case ResetCall => ResetMoves(st);
    case SyncCall => SyncKeeps(st);
  }

  lemma SyncKeeps(st: ApState)
    requires Shaped(st)
    ensures Keeps(st, Synced(st), 0)
  {
    ShapedTable(st, Synced(st));
  }

  /** The counter is recounted, or follows the call but for the drift. */
  lemma NextCounter(st: ApState, c: Call, r: ApState)
    requires Next(st, c, r)
    ensures Syncs(st, c) ==> r.nrActive == NrActive(r.tab)
    ensures !Syncs(st, c) ==> r.nrActive == st.nrActive + Gain(st, c) - Drift(st, c)
  {
    if c.SuccessCall? && !st.tab[c.i].authed { SuccessCounter(st, c.i, c.now); }
    hide Drop, AfterCleanup, Finalized, CountIf;
  }

  lemma SuccessCounter(st: ApState, i: nat, now: int)
    requires i < |st.tab| && !st.tab[i].authed
    ensures NrActive(Success(st, i, now).tab) == NrActive(Try(st, i, now).tab)
  {
    var st1 := Try(st, i, now);
    ReplaceCounts(st1.tab, i, Authenticated(st1.tab[i], now));
    hide CountIf;
  }

  /** What a call does to the gap between the active entries and their counter. */
  lemma NextUnseen(st: ApState, c: Call, r: ApState)
    requires Shaped(st) && Next(st, c, r)
    ensures Unseen(r) == if Syncs(st, c) then 0 else Unseen(st) + Drift(st, c)
    ensures Shaped(r) && (Counted(r) <==> Syncs(st, c) || Unseen(st) + Drift(st, c) == 0)
  {
    NextMoves(st, c, r);
    NextCounter(st, c, r);
    hide Next, Shaped, NrActive, Gain, Drift, Syncs;
  }

  /** After a disconnection at index `p` nothing from `p` on is active, if nothing behind it was. */
  lemma DropFrom(st: ApState, p: nat, failSec: bool, now: int, r: ApState)
    requires p < |st.tab| && InactiveFrom(st.tab, p + 1) && Dropped(st, p, failSec, now, r)
    ensures InactiveFrom(r.tab, p)
  {
    if st.tab[p].active {
      var st1 := BeforeCleanup(st, p, failSec, now);
      var tab :| AfterCleanup(st1.tab, tab) && r == Synced(st1.(tab := tab));
      AfterCleanupPartly(st1.tab, tab);
      EvictionKeepsInactiveFrom(st1.tab, tab, p);
    }
  }

  // ---------- runs ----------

  /** `states[0]`, then after each call the next state. */
  ghost predicate IsRun(states: seq<ApState>, calls: seq<Call>) {
    |states| == |calls| + 1 && forall i :: 0 <= i < |calls| ==> Next(states[i], calls[i], states[i + 1])
  }

  const INIT_AP := ApState([], 0, 0, 0, 0, 0, 0)

  lemma {:induction false} RunsStayShaped(states: seq<ApState>, calls: seq<Call>, n: nat)
    requires IsRun(states, calls) && states[0] == INIT_AP && n <= |calls|
    ensures Shaped(states[n])
  {
    if n > 0 {
      RunsStayShaped(states, calls, n - 1);
      hide Shaped, Next;
      NextMoves(states[n - 1], calls[n - 1], states[n]);
    }
  }

  /** What drifted since the counter was last brought up to date. */
  function DriftSinceSync(states: seq<ApState>, calls: seq<Call>, n: nat): int
    requires n <= |calls| <= |states|
  {
    if n == 0 || Syncs(states[n - 1], calls[n - 1]) then 0
    else DriftSinceSync(states, calls, n - 1) + Drift(states[n - 1], calls[n - 1])
  }

  /** In every state of every run the active entries are those the counter counts and those
      that drifted since it was last brought up to date. */
  lemma {:induction false} CounterAndDrift(states: seq<ApState>, calls: seq<Call>, n: nat)
    requires IsRun(states, calls) && states[0] == INIT_AP && n <= |calls|
    ensures NrActive(states[n].tab) == states[n].nrActive + DriftSinceSync(states, calls, n)
  {
    hide Shaped, Next, CountIf, Drift, Syncs;
    if n == 0 {
      NoneActive(states[0].tab);
    } else {
      CounterAndDrift(states, calls, n - 1);
      RunsStayShaped(states, calls, n - 1);
      assert Next(states[n - 1], calls[n - 1], states[n - 1 + 1]);
      NextUnseen(states[n - 1], calls[n - 1], states[n]);
    }
  }

  lemma NoneActive(tab: Table)
    requires tab == []
    ensures NrActive(tab) == 0
  {
  }

  /** The counter is current in all states of a run if and only if no call of it raises an
      inactive station, nor loses one to a neighbour link. */
  lemma {:induction false} RunsStayCountedExactly(states: seq<ApState>, calls: seq<Call>, n: nat)
    requires IsRun(states, calls) && states[0] == INIT_AP && n <= |calls|
    ensures (forall i :: 0 <= i <= n ==> Counted(states[i])) <==>
      forall i :: 0 <= i < n ==> !Raises(states[i], calls[i]) && !LosesLent(states[i], calls[i])
  {
    hide Shaped, Next, Unseen, Raises, LosesLent, Drift, Syncs;
    if n == 0 {
      InitCounted();
    } else {
      RunsStayCountedExactly(states, calls, n - 1);
      RunsStayShaped(states, calls, n - 1);
      assert Next(states[n - 1], calls[n - 1], states[n - 1 + 1]);
      NextUnseen(states[n - 1], calls[n - 1], states[n]);
      DriftUnsynced(states[n - 1], calls[n - 1]);
    }
  }

  lemma DriftUnsynced(st: ApState, c: Call)
    ensures Drift(st, c) == 0 <==> !Raises(st, c) && !LosesLent(st, c)
    ensures Drift(st, c) != 0 ==> !Syncs(st, c) && Gain(st, c) == Drift(st, c)
  {
  }

  lemma InitCounted()
    ensures Counted(INIT_AP)
  {
  }

  lemma InitConserved(st: ApState)
    requires st == INIT_AP
    ensures Conserved(st) && SuccessesAddUp(st)
  {
    NoEntries(st.tab);
    hide CountIf, NrAuthed, NrUnauthed, NrUnfailed, NrUndecided;
  }

  lemma NoEntries(tab: Table)
    requires tab == []
    ensures NrAuthed(tab) == NrUnauthed(tab) == NrUnfailed(tab) == NrUndecided(tab) == 0
  {
  }

  /** The association counters balance in all states of a run if and only if no call of it
      unbalances them. */
  lemma {:induction false} CountersAreConservedExactly(states: seq<ApState>, calls: seq<Call>, n: nat)
    requires IsRun(states, calls) && states[0] == INIT_AP && n <= |calls|
    ensures (forall i :: 0 <= i <= n ==> Conserved(states[i])) <==>
      forall i :: 0 <= i < n ==> !Unbalances(states[i], calls[i])
  {
    hide Shaped, Conserved, Unbalances, Next, NrActive, Gain, SuccessesAddUp, Miscounts;
    if n == 0 {
      InitConserved(states[0]);
    } else {
      CountersAreConservedExactly(states, calls, n - 1);
      RunsStayShaped(states, calls, n - 1);
      assert Next(states[n - 1], calls[n - 1], states[n - 1 + 1]);
      NextMoves(states[n - 1], calls[n - 1], states[n]);
    }
  }

  /** A call after which neither the counter nor the balance can be wrong. */
  predicate Ordinary(st: ApState, c: Call) {
    !DestroysActive(st, c) && !Raises(st, c) && !c.LentCall? && !c.GuestCall? && !c.ResetCall?
  }

  lemma OrdinaryKeeps(st: ApState, c: Call)
    requires Ordinary(st, c)
    ensures !Unbalances(st, c) && !Raises(st, c) && !LosesLent(st, c)
  {
    hide Counts, NoneIdle, NoneSecure;
  }

  /** In a run of such calls the counter is current and the counters balance in every state. */
  lemma CountersAreConserved(states: seq<ApState>, calls: seq<Call>, n: nat)
    requires IsRun(states, calls) && states[0] == INIT_AP && n <= |calls|
    requires forall i :: 0 <= i < n ==> Ordinary(states[i], calls[i])
    ensures Counted(states[n]) && Conserved(states[n])
  {
    hide Next, Unbalances, Ordinary, Raises, LosesLent, Counted, Conserved;
    forall i | 0 <= i < n
      ensures !Unbalances(states[i], calls[i]) && !Raises(states[i], calls[i]) && !LosesLent(states[i], calls[i])
    {
      OrdinaryKeeps(states[i], calls[i]);
    }
    RunsStayCountedExactly(states, calls, n);
    CountersAreConservedExactly(states, calls, n);
  }

  /** The first law holds in all states of a run, raises or not, if and only if none of its
      calls miscounts successes. */
  lemma {:induction false} SuccessesAddUpExactly(states: seq<ApState>, calls: seq<Call>, n: nat)
    requires IsRun(states, calls) && states[0] == INIT_AP && n <= |calls|
    ensures (forall i :: 0 <= i <= n ==> SuccessesAddUp(states[i])) <==>
      forall i :: 0 <= i < n ==> !Miscounts(states[i], calls[i])
  {
    hide Shaped, Conserved, Unbalances, Next, NrActive, Gain, SuccessesAddUp, Miscounts;
    if n == 0 {
      InitConserved(states[0]);
    } else {
      SuccessesAddUpExactly(states, calls, n - 1);
      RunsStayShaped(states, calls, n - 1);
      assert Next(states[n - 1], calls[n - 1], states[n - 1 + 1]);
      NextMoves(states[n - 1], calls[n - 1], states[n]);
    }
  }

  /** Destroying a station directly keeps the balance of the association counters exactly when
      it is inactive, or has failed security without being authenticated, or is undecided
      while the attempts are accounted for without it. */
  lemma DirectDestroyExactly(st: ApState, i: nat)
    requires Shaped(st) && Conserved(st) && i < |st.tab|
    ensures
      var s := st.tab[i];
      Conserved(Destroyed(st, i)) <==>
      || !s.active
      || (!s.authed && (s.secFail || st.attempts < st.success + st.fail + st.failSecurity + NrUndecided(st.tab)))
  {
    DestroyMoves(st, i);
    hide Shaped, Destroyed, CountIf;
  }

  // ---------- runs that break it ----------

  /** The entry for a station as it is created. */
  function Fresh(id: nat, mac: nat): Sta {
    Sta(id, mac, false, false, false, 0, false, true)
  }

  lemma FirstEntry(st: ApState, s: Sta, cap: nat)
    requires FirstWith(st.tab, s.mac).None? && |st.tab| < cap
    ensures Created(st, s, cap, Appended(st, s))
  {
    assert Finalized(st.tab, s.mac, st.tab) && st.(tab := st.tab) == st;
  }

  /** A station is created and connects. */
  lemma OneConnected(mac: nat, cap: nat, now: int) returns (a: ApState, b: ApState)
    requires cap > 0
    ensures Next(INIT_AP, CreateCall(Fresh(0, mac), cap), a) && Next(a, SuccessCall(0, now), b)
    ensures a.tab == [Fresh(0, mac)]
    ensures b == ApState([Authenticated(Activated(Fresh(0, mac), now), now)], 1, 1, 0, 0, 0, 1)
  {
    var s0 := Fresh(0, mac);
    FirstEntry(INIT_AP, s0, cap);
    a := Appended(INIT_AP, s0);
    b := Success(a, 0, now);
    hide Created, CountIf;
    OneActive(Activated(s0, now));
    assert a.tab == [s0];
    assert Try(a, 0, now).tab == [Activated(s0, now)];
    assert b.tab == [Authenticated(Activated(s0, now), now)];
  }

  lemma DropOne(s: Sta)
    ensures Drop([s], {s.id}) == []
  {
    assert [s][..0] == [];
  }

  lemma ThreeCalls(states: seq<ApState>, calls: seq<Call>)
    requires |states| == 4 && |calls| == 3 && Next(states[0], calls[0], states[1])
    requires Next(states[1], calls[1], states[2]) && Next(states[2], calls[2], states[3])
    ensures IsRun(states, calls)
  {
    hide Next;
  }

  lemma DestroyConnected(b: ApState)
    requires |b.tab| == 1 && b.tab[0].active
    ensures Next(b, DestroyCall(0), b.(tab := [], nrActive := b.nrActive - 1))
  {
    assert b.tab == [b.tab[0]];
    DropOne(b.tab[0]);
    hide Drop;
  }

  /** Destroying an authenticated station directly leaves the counter current and the balance broken. */
  lemma DestroyBreaksBalance(mac: nat, cap: nat, now: int) returns (states: seq<ApState>, calls: seq<Call>)
    requires cap > 0
    ensures IsRun(states, calls) && states[0] == INIT_AP
    ensures calls == [CreateCall(Fresh(0, mac), cap), SuccessCall(0, now), DestroyCall(0)]
    ensures states[1].tab == [Fresh(0, mac)] && states[2].nrActive == 1
    ensures states[3] == ApState([], 0, 1, 0, 0, 0, 1) && Counted(states[3]) && !Conserved(states[3])
  {
    hide Next, Counted, Conserved;
    var a, b := OneConnected(mac, cap, now);
    var c := b.(tab := [], nrActive := b.nrActive - 1);
    DestroyConnected(b);
    states := [INIT_AP, a, b, c];
    calls := [CreateCall(Fresh(0, mac), cap), SuccessCall(0, now), DestroyCall(0)];
    ThreeCalls(states, calls);
    OneSuccessLeft(c);
  }

  lemma OneSuccessLeft(st: ApState)
    requires st.tab == [] && st.nrActive == 0 && st.success != st.disconnect
    ensures Counted(st) && !Conserved(st)
  {
    NoEntries(st.tab);
    hide CountIf, NrAuthed, NrUnauthed, NrUnfailed, NrUndecided;
  }

  /** A station that a neighbour link disconnects leaves its own access point with a counter
      of 1 and no active station, and with a success that is never followed by a disconnection. */
  lemma LendingBreaksBoth(mac: nat, cap: nat, now: int) returns (states: seq<ApState>, calls: seq<Call>)
    requires cap > 0
    ensures IsRun(states, calls) && states[0] == INIT_AP
    ensures calls == [CreateCall(Fresh(0, mac), cap), SuccessCall(0, now), LentCall(0, Drops(false, now))]
    ensures NrActive(states[3].tab) == NrAuthed(states[3].tab) == 0 && states[3].nrActive == 1
    ensures states[3].success == 1 && states[3].disconnect == 0 && !Counted(states[3]) && !Conserved(states[3])
  {
    var a, b := OneConnected(mac, cap, now);
    var c := Lent(b, 0, Drops(false, now));
    states := [INIT_AP, a, b, c];
    calls := [CreateCall(Fresh(0, mac), cap), SuccessCall(0, now), LentCall(0, Drops(false, now))];
    hide Created, Success, CountIf;
    assert c.tab == [Disconnected(b.tab[0], false, now)];
    OneActive(c.tab[0]);
  }

  lemma OneActive(s: Sta)
    ensures NrActive([s]) == B(s.active) && NrAuthed([s]) == B(s.authed) && NrUnauthed([s]) == B(s.active && !s.authed)
  {
    CountIfOne(s, (s: Sta) => s.active);
    CountIfOne(s, (s: Sta) => s.authed);
    CountIfOne(s, (s: Sta) => s.active && !s.authed);
  }

  /** A station whose WDS interface is announced before any attempt ends active and
      authenticated: no counter of active stations knows it, and its success has no attempt. */
  lemma RaiseBreaksBoth(mac: nat, cap: nat, now: int) returns (states: seq<ApState>, calls: seq<Call>)
    requires cap > 0
    ensures IsRun(states, calls) && states[0] == INIT_AP
    ensures calls == [FindCall(Fresh(0, mac), false, cap), RaiseCall(0), SuccessCall(0, now)]
    ensures states[1].tab == [Fresh(0, mac)] && states[2].tab == [Fresh(0, mac).(active := true)]
    ensures states[3].tab == [Authenticated(states[2].tab[0], now)]
    ensures NrActive(states[3].tab) == NrAuthed(states[3].tab) == 1 && states[3].nrActive == 0
    ensures states[3].success == 1 && states[3].attempts == 0
    ensures !Counted(states[3]) && !Conserved(states[3]) && SuccessesAddUp(states[3])
  {
    var s0 := Fresh(0, mac);
    FirstEntry(INIT_AP, s0, cap);
    var a := Appended(INIT_AP, s0);
    var b, c := Raised(a, 0), Success(Raised(a, 0), 0, now);
    assert a.tab == [s0] && b.tab == [s0.(active := true)];
    assert c.tab == [Authenticated(s0.(active := true), now)];
    OneActive(c.tab[0]);
    states, calls := [INIT_AP, a, b, c], [FindCall(s0, false, cap), RaiseCall(0), SuccessCall(0, now)];
    hide Created, CountIf;
  }

  /** Two events for the broadcast address give it two entries, if there is room for both. */
  lemma BroadcastTwice(cap: nat) returns (states: seq<ApState>, calls: seq<Call>)
    requires cap > 1
    ensures IsRun(states, calls) && states[0] == INIT_AP
    ensures calls == [FindCall(Fresh(0, BROADCAST), false, cap), FindCall(Fresh(1, BROADCAST), false, cap)]
    ensures !DistinctMacs(states[2].tab)
  {
    var s0, s1 := Fresh(0, BROADCAST), Fresh(1, BROADCAST);
    FirstEntry(INIT_AP, s0, cap);
    var a := Appended(INIT_AP, s0);
    assert a.tab == [s0];
    var b := Appended(a, s1);
    assert Created(a, s1, cap, b) by {
      assert FirstWith(a.tab, BROADCAST) == Some(0);
      assert Finalized(a.tab, BROADCAST, a.tab) && a.(tab := a.tab) == a;
    }
    states, calls := [INIT_AP, a, b], [FindCall(s0, false, cap), FindCall(s1, false, cap)];
    hide Created;
    assert b.tab[0].mac == b.tab[1].mac;
  }

  // ---------- addresses ----------

  /** The call can only give an entry to an address that has none: no direct creation for a
      listed address, and no find-or-create for broadcast. */
  predicate FreshAddress(st: ApState, c: Call) {
    match c
    case CreateCall(s, _) => FirstWith(st.tab, s.mac).None?
    case FindCall(s, _, _) => s.mac != BROADCAST
    case _ => true
  }

  lemma ReplaceMacs(tab: Table, i: nat, s: Sta)
    requires i < |tab| && s.mac == tab[i].mac
    ensures DistinctMacs(tab[i := s]) <==> DistinctMacs(tab)
  {
    var r := tab[i := s];
    assert forall j :: 0 <= j < |tab| ==> r[j].mac == tab[j].mac;
  }

  lemma CleanupMacs(tab: Table, r: Table)
    requires DistinctMacs(tab) && AfterCleanup(tab, r)
    ensures DistinctMacs(r)
  {
    AfterCleanupPartly(tab, r);
    hide AfterCleanup;
    var ids :| ids <= Evictable(tab) && r == Drop(tab, ids);
    DropDistinct(tab, ids);
  }

  lemma DropCallMacs(st: ApState, i: nat, failSec: bool, now: int, r: ApState)
    requires DistinctMacs(st.tab) && i < |st.tab| && Dropped(st, i, failSec, now, r)
    ensures DistinctMacs(r.tab)
  {
    hide DistinctMacs, AfterCleanup;
    if st.tab[i].active {
      var st1 := BeforeCleanup(st, i, failSec, now);
      var tab :| AfterCleanup(st1.tab, tab) && r == Synced(st1.(tab := tab));
      ReplaceMacs(st.tab, i, Disconnected(st.tab[i], failSec, now));
      CleanupMacs(st1.tab, tab);
    }
  }

  lemma SuccessMacs(st: ApState, i: nat, now: int)
    requires DistinctMacs(st.tab) && i < |st.tab|
    ensures DistinctMacs(Try(st, i, now).tab) && DistinctMacs(Success(st, i, now).tab)
  {
    hide DistinctMacs;
    ReplaceMacs(st.tab, i, Activated(st.tab[i], now));
    var st1 := Try(st, i, now);
    ReplaceMacs(st1.tab, i, Authenticated(st1.tab[i], now));
  }

  /** What creating an entry does to the distinctness of addresses is decided by the table
      that finalising the address leaves: its room, and whether the address is still listed. */
  lemma CreationMacsExactly(st: ApState, s: Sta, cap: nat, r: ApState)
    returns (tab: Table)
    requires DistinctIds(st.tab) && DistinctMacs(st.tab) && Created(st, s, cap, r)
    ensures Finalized(st.tab, s.mac, tab) && r == AppendedWithin(st.(tab := tab), s, cap)
    ensures DistinctMacs(r.tab) <==> |tab| >= cap || FirstWith(tab, s.mac).None?
  {
    tab :| Finalized(st.tab, s.mac, tab) && r == AppendedWithin(st.(tab := tab), s, cap);
    FinalizedMacs(st.tab, s.mac, tab);
    hide Finalized;
    if |tab| < cap { AppendMacs(tab, s); }
  }

  lemma NextMacs(st: ApState, c: Call, r: ApState)
    requires Shaped(st) && DistinctMacs(st.tab) && Next(st, c, r) && FreshAddress(st, c)
    ensures DistinctMacs(r.tab)
  {
    assert DistinctIds(st.tab);
    hide Shaped, DistinctMacs, Try, Success, Dropped, AfterCleanup, Drop, Visited, Marked;
    match c
    case TryCall(i, now) => SuccessMacs(st, i, now);
    case SuccessCall(i, now) => SuccessMacs(st, i, now);
    case DropCall(i, failSec, now) => DropCallMacs(st, i, failSec, now, r);
    case SecFailCall(i) => ReplaceMacs(st.tab, i, st.tab[i].(secFail := true));
    case CreateCall(s, cap) => var tab := CreationMacsExactly(st, s, cap, r);
    case FindCall(s, elsewhere, cap) => if r != st { var tab := CreationMacsExactly(st, s, cap, r); }
    case DestroyCall(i) => DropDistinct(st.tab, {st.tab[i].id});
    case NotifyCall(i, pending) => ReplaceMacs(st.tab, i, st.tab[i].(pending := pending));
    case HoldCall(i, removable) => ReplaceMacs(st.tab, i, st.tab[i].(removable := removable));
    case RaiseCall(i) => ReplaceMacs(st.tab, i, st.tab[i].(active := true));
    case LentCall(i, e) => MarkedMac(st.tab[i], e); ReplaceMacs(st.tab, i, Marked(st.tab[i], e));
    case GuestCall(s, e) => VisitLeaves(st, s, e, r); if r.tab != st.tab { CleanupMacs(st.tab, r.tab); }
    case CleanupCall => CleanupMacs(st.tab, r.tab);
    case _ =>
  }

  lemma MarkedMac(s: Sta, e: Event)
    ensures Marked(s, e).mac == s.mac && Marked(s, e).id == s.id
  {
  }

  /** In every state of a run whose creations are for fresh addresses, addresses are distinct,
      and the lookup of an address gives the one entry that has it, or none when none has it. */
  lemma {:induction false} AddressesStayDistinct(states: seq<ApState>, calls: seq<Call>, n: nat)
    requires IsRun(states, calls) && states[0] == INIT_AP && n <= |calls|
    requires forall i :: 0 <= i < n ==> FreshAddress(states[i], calls[i])
    ensures DistinctMacs(states[n].tab)
    ensures forall i :: 0 <= i < |states[n].tab| ==> FirstWith(states[n].tab, states[n].tab[i].mac) == Some(i)
  {
    if n > 0 {
      AddressesStayDistinct(states, calls, n - 1);
      RunsStayShaped(states, calls, n - 1);
      hide Shaped, Next, FreshAddress;
      NextMacs(states[n - 1], calls[n - 1], states[n]);
    }
    hide DistinctMacs;
    forall i | 0 <= i < |states[n].tab| ensures FirstWith(states[n].tab, states[n].tab[i].mac) == Some(i) {
      LookupFinds(states[n].tab, i);
    }
  }

  /** Every creation of the call is for an array of `cap` slots. */
  predicate ForArray(c: Call, cap: nat) {
    (c.CreateCall? || c.FindCall?) ==> c.cap == cap
  }

  lemma NextFits(st: ApState, c: Call, r: ApState, cap: nat)
    requires Next(st, c, r) && ForArray(c, cap) && |st.tab| <= cap
    ensures |r.tab| <= cap
  {
    hide CountIf, Finalized, AfterCleanup, BeforeCleanup, Drop, Visited, Charged, Marked;
    match c
    case DropCall(i, failSec, now) => DropFits(st, i, failSec, now, r);
    case CreateCall(s, _) => CreationFits(st, s, cap, r);
    case FindCall(s, elsewhere, _) => if r != st { CreationFits(st, s, cap, r); }
    case DestroyCall(i) => DestroyFits(st, i);
    case GuestCall(s, e) => VisitFits(st, s, e, r);
    case CleanupCall => AfterCleanupPartly(st.tab, r.tab); PartlyMembers(st.tab, r.tab);
    case _ =>
  }

  lemma DropFits(st: ApState, i: nat, failSec: bool, now: int, r: ApState)
    requires i < |st.tab| && Dropped(st, i, failSec, now, r)
    ensures |r.tab| <= |st.tab|
  {
    hide AfterCleanup;
    if st.tab[i].active {
      var st1 := BeforeCleanup(st, i, failSec, now);
      var tab :| AfterCleanup(st1.tab, tab) && r == Synced(st1.(tab := tab));
      AfterCleanupPartly(st1.tab, tab);
      PartlyMembers(st1.tab, tab);
    }
  }

  lemma VisitFits(st: ApState, s: Sta, e: Event, r: ApState)
    requires Visited(st, s, e, r)
    ensures |r.tab| <= |st.tab|
  {
    VisitLeaves(st, s, e, r);
    hide AfterCleanup, Visited;
    if r.tab != st.tab {
      AfterCleanupPartly(st.tab, r.tab);
      PartlyMembers(st.tab, r.tab);
    }
  }

  lemma CreationFits(st: ApState, s: Sta, cap: nat, r: ApState)
    requires Created(st, s, cap, r) && |st.tab| <= cap
    ensures |r.tab| <= cap
  {
    hide AfterCleanup;
    var tab :| Finalized(st.tab, s.mac, tab) && r == AppendedWithin(st.(tab := tab), s, cap);
    if tab != st.tab {
      var i := FirstWith(st.tab, s.mac).value;
      var tab1 := st.tab[i := st.tab[i].(pending := false)];
      AfterCleanupPartly(tab1, tab);
      PartlyMembers(tab1, tab);
    }
  }

  lemma DestroyFits(st: ApState, i: nat)
    requires i < |st.tab|
    ensures |Destroyed(st, i).tab| <= |st.tab|
  {
    var ids := {st.tab[i].id};
    var from := DropMoves(st.tab, ids);
    hide Drop;
    assert |from| > 0 ==> |from| - 1 <= from[|from| - 1];
  }

  /** In every state of a run on one array the table fits the array. */
  lemma {:induction false} TableFitsArray(states: seq<ApState>, calls: seq<Call>, n: nat, cap: nat)
    requires IsRun(states, calls) && states[0] == INIT_AP && n <= |calls|
    requires forall i :: 0 <= i < n ==> ForArray(calls[i], cap)
    ensures |states[n].tab| <= cap
  {
    if n > 0 {
      TableFitsArray(states, calls, n - 1, cap);
      hide Next, ForArray;
      NextFits(states[n - 1], calls[n - 1], states[n], cap);
    }
  }
}
