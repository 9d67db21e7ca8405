/** What each call does to each entry of the table, and the time that an entry shows after a
    run: the clean-up evicts by it. */
module StationTimes {
  import opened Collections
  import opened StationTable
  import opened StationRuns

  /** The entry with the id. */
  function Entry(tab: Table, id: nat): (r: Option<Sta>)
    ensures r.Some? ==> r.value in tab && r.value.id == id
    ensures r.None? ==> forall s :: s in tab ==> s.id != id
  {
    if tab == [] then None else if tab[0].id == id then Some(tab[0]) else Entry(tab[1..], id)
  }

  lemma EntryIs(tab: Table, s: Sta)
    requires DistinctIds(tab) && s in tab
    ensures Entry(tab, s.id) == Some(s)
  {
    var r := Entry(tab, s.id);
    if r.Some? { SameEntry(tab, r.value, s); }
  }

  // ---------- one call ----------

  predicate IsAt(st: ApState, i: nat, t: Sta) {
    i < |st.tab| && st.tab[i].id == t.id
  }

  function Left(t: Sta, failSec: bool, now: int): Sta {
    if t.active
    then t.(active := false, authed := false, secFail := t.secFail || (failSec && !t.authed), changed := now)
    else t
  }

  function Told(t: Sta, e: Event): Sta {
    match e
    case Connects(now) => if t.authed then t else t.(authed := true, changed := now)
    case Drops(failSec, now) => Left(t, failSec, now)
    case FailsSecurity => t.(secFail := true)
  }

  /** What becomes of an entry by a call, if it is still listed then and no notification of it is finalised. */
  function EntryAfter(st: ApState, c: Call, t: Sta): Sta {
    match c
    case TryCall(i, now) =>
      if IsAt(st, i, t) && !t.active then t.(active := true, authed := false, secFail := false, changed := now) else t
    case SuccessCall(i, now) => if IsAt(st, i, t) then Succeeded(t, now) else t
    case DropCall(i, failSec, now) => if IsAt(st, i, t) then Left(t, failSec, now) else t
    case SecFailCall(i) => if IsAt(st, i, t) && t.active then t.(secFail := true) else t
    case NotifyCall(i, pending) => if IsAt(st, i, t) then t.(pending := pending) else t
    case HoldCall(i, removable) => if IsAt(st, i, t) then t.(removable := removable) else t
    case RaiseCall(i) => if IsAt(st, i, t) then t.(active := true) else t
    case LentCall(i, e) => if IsAt(st, i, t) then Told(t, e) else t
    case _ => t
  }

  /** A success leaves an earlier security failure standing only if the station was active. */
  function Succeeded(t: Sta, now: int): Sta {
    if t.authed then t else t.(active := true, authed := true, secFail := t.active && t.secFail, changed := now)
  }

  /** The entry of a table after a call, by the entry with its id before. */
  ghost predicate Follows(st: ApState, c: Call, s: Sta) {
    match Entry(st.tab, s.id)
    case None => (c.CreateCall? || c.FindCall?) && s == c.s
    case Some(t) => s == EntryAfter(st, c, t) || (Finalises(c, t) && s == t.(pending := false))
  }

  predicate Finalises(c: Call, t: Sta) {
    (c.CreateCall? || c.FindCall?) && t.mac == c.s.mac && t.pending
  }

  lemma ListedFollows(st: ApState, c: Call, s: Sta)
    requires DistinctIds(st.tab) && s in st.tab && EntryAfter(st, c, s) == s
    ensures Follows(st, c, s)
  {
    EntryIs(st.tab, s);
  }

  lemma ReplacedFollows(st: ApState, c: Call, i: nat, x: Sta, s: Sta)
    requires DistinctIds(st.tab) && i < |st.tab| && s in st.tab[i := x]
    requires x == EntryAfter(st, c, st.tab[i]) && x.id == st.tab[i].id
    requires forall t :: t in st.tab && t.id != st.tab[i].id ==> EntryAfter(st, c, t) == t
    ensures Follows(st, c, s)
  {
    var j :| 0 <= j < |st.tab| && st.tab[i := x][j] == s;
    EntryIs(st.tab, st.tab[j]);
    hide EntryAfter;
    if j != i { ListedFollows(st, c, s); }
  }

  lemma DroppedFollows(st: ApState, i: nat, failSec: bool, now: int, r: ApState, s: Sta)
    requires DistinctIds(st.tab) && i < |st.tab| && Dropped(st, i, failSec, now, r) && s in r.tab
    ensures Follows(st, DropCall(i, failSec, now), s)
  {
    var c := DropCall(i, failSec, now);
    if st.tab[i].active {
      var st1 := BeforeCleanup(st, i, failSec, now);
      var tab :| AfterCleanup(st1.tab, tab) && r == Synced(st1.(tab := tab));
      AfterCleanupPartly(st1.tab, tab);
      PartlyMembers(st1.tab, tab);
      hide AfterCleanup, DistinctIds;
      ReplacedFollows(st, c, i, st1.tab[i], s);
    } else {
      hide DistinctIds;
      assert st.tab == st.tab[i := st.tab[i]];
      ReplacedFollows(st, c, i, st.tab[i], s);
    }
  }

  lemma CreatedFollows(st: ApState, c: Call, cap: nat, r: ApState, s: Sta)
    requires DistinctIds(st.tab) && (c.CreateCall? || c.FindCall?) && New(st, c.s)
    requires Created(st, c.s, cap, r) && s in r.tab
    ensures Follows(st, c, s)
  {
    var tab :| Finalized(st.tab, c.s.mac, tab) && r == AppendedWithin(st.(tab := tab), c.s, cap);
    if s in tab {
      FinalizedFollows(st, c, tab, s);
    }
  }

  lemma FinalizedFollows(st: ApState, c: Call, tab: Table, s: Sta)
    requires DistinctIds(st.tab) && (c.CreateCall? || c.FindCall?) && Finalized(st.tab, c.s.mac, tab) && s in tab
    ensures Follows(st, c, s)
  {
    if tab == st.tab {
      ListedFollows(st, c, s);
    } else {
      var i := FirstWith(st.tab, c.s.mac).value;
      var tab1 := st.tab[i := st.tab[i].(pending := false)];
      AfterCleanupPartly(tab1, tab);
      PartlyMembers(tab1, tab);
      hide AfterCleanup;
      var j :| 0 <= j < |tab1| && tab1[j] == s;
      EntryIs(st.tab, st.tab[j]);
    }
  }

  /** Every call, entry by entry: only the entry it is about changes, in the fields said, or a
      pending notification of the created address ends, or the created entry is new. */
  lemma NextFollows(st: ApState, c: Call, r: ApState, s: Sta)
    requires Shaped(st) && Next(st, c, r) && s in r.tab
    ensures Follows(st, c, s)
  {
    assert DistinctIds(st.tab);
    hide DistinctIds, Dropped, AfterCleanup, Follows, Created, Visited, Try, Success, SecFailNoDc, CountIf, Drop;
    match c
    case TryCall(i, now) => TryFollows(st, i, now, s);
    case SuccessCall(i, now) => SuccessFollows(st, i, now, s);
    case DropCall(i, failSec, now) => DroppedFollows(st, i, failSec, now, r, s);
    case SecFailCall(i) => SecFailFollows(st, i, s);
    case CreateCall(_, cap) => CreatedFollows(st, c, cap, r, s);
    case FindCall(_, _, cap) => if r == st { ListedFollows(st, c, s); } else { CreatedFollows(st, c, cap, r, s); }
    case DestroyCall(i) => DropMembers(st.tab, {st.tab[i].id}); ListedFollows(st, c, s);
    case NotifyCall(i, _) => ReplacedFollows(st, c, i, r.tab[i], s);
    case HoldCall(i, _) => ReplacedFollows(st, c, i, r.tab[i], s);
    case RaiseCall(i) => ReplacedFollows(st, c, i, r.tab[i], s);
    case LentCall(i, _) => ReplacedFollows(st, c, i, r.tab[i], s);
    case GuestCall(x, e) => GuestFollows(st, x, e, r, s);
    case CleanupCall => CleanedFollows(st, c, r.tab, s);
    case _ => ListedFollows(st, c, s);
  }

  lemma TryFollows(st: ApState, i: nat, now: int, s: Sta)
    requires DistinctIds(st.tab) && i < |st.tab| && s in Try(st, i, now).tab
    ensures Follows(st, TryCall(i, now), s)
  {
    var tab := Try(st, i, now).tab;
    assert tab == st.tab[i := tab[i]];
    hide DistinctIds, CountIf;
    ReplacedFollows(st, TryCall(i, now), i, tab[i], s);
  }

  lemma SecFailFollows(st: ApState, i: nat, s: Sta)
    requires DistinctIds(st.tab) && i < |st.tab| && s in SecFailNoDc(st, i).tab
    ensures Follows(st, SecFailCall(i), s)
  {
    var tab := SecFailNoDc(st, i).tab;
    assert tab == st.tab[i := tab[i]];
    hide DistinctIds;
    ReplacedFollows(st, SecFailCall(i), i, tab[i], s);
  }

  lemma SuccessFollows(st: ApState, i: nat, now: int, s: Sta)
    requires Shaped(st) && i < |st.tab| && s in Success(st, i, now).tab
    ensures Follows(st, SuccessCall(i, now), s)
  {
    assert DistinctIds(st.tab) && st.tab[i] in st.tab;
    var tab := Success(st, i, now).tab;
    assert tab == st.tab[i := tab[i]];
    hide DistinctIds, CountIf;
    ReplacedFollows(st, SuccessCall(i, now), i, tab[i], s);
  }

  lemma GuestFollows(st: ApState, x: Sta, e: Event, r: ApState, s: Sta)
    requires DistinctIds(st.tab) && Visited(st, x, e, r) && s in r.tab
    ensures Follows(st, GuestCall(x, e), s)
  {
    VisitLeaves(st, x, e, r);
    hide Visited, AfterCleanup;
    if r.tab == st.tab {
      ListedFollows(st, GuestCall(x, e), s);
    } else {
      CleanedFollows(st, GuestCall(x, e), r.tab, s);
    }
  }

  lemma CleanedFollows(st: ApState, c: Call, tab: Table, s: Sta)
    requires DistinctIds(st.tab) && AfterCleanup(st.tab, tab) && s in tab && (c.GuestCall? || c.CleanupCall?)
    ensures Follows(st, c, s)
  {
    AfterCleanupPartly(st.tab, tab);
    PartlyMembers(st.tab, tab);
    hide AfterCleanup, DistinctIds;
    ListedFollows(st, c, s);
  }

  // ---------- which entries stay, and where ----------

  /** The call may end in a clean-up. */
  predicate Cleans(c: Call) {
    c.DropCall? || c.CreateCall? || c.FindCall? || c.CleanupCall? || (c.GuestCall? && c.e.Drops?)
  }

  /** A call that neither cleans up nor destroys leaves every entry in its place. */
  lemma NextPlaces(st: ApState, c: Call, r: ApState, j: nat)
    requires Next(st, c, r) && !Cleans(c) && !c.DestroyCall? && j < |st.tab|
    ensures |r.tab| == |st.tab| && r.tab[j].id == st.tab[j].id
  {
    hide CountIf, AfterCleanup;
  }

  ghost predicate Lists(tab: Table, id: nat) {
    exists s :: s in tab && s.id == id
  }

  /** No call unlists an entry but a destruction of just this one, and a clean-up after which
      the entry is inactive and has no notification pending. */
  lemma NextLists(st: ApState, c: Call, r: ApState, t: Sta)
    requires Shaped(st) && Next(st, c, r) && t in st.tab
    ensures
      || Lists(r.tab, t.id)
      || (c.DestroyCall? && IsAt(st, c.i, t))
      || (Cleans(c) && !EntryAfter(st, c, t).active && (!t.pending || Finalises(c, t)))
  {
    assert DistinctIds(st.tab);
    hide DistinctIds, CountIf, AfterCleanup, Finalized, Created, Dropped, Visited, EntryAfter, Lists, Try, Success,
      SecFailNoDc, Synced, Drop;
    match c
    case DropCall(i, failSec, now) => DropLists(st, i, failSec, now, r, t);
    case CreateCall(_, cap) => CreateLists(st, c, cap, r, t);
    case FindCall(_, _, cap) => if r == st { IsListed(st.tab, t); } else { CreateLists(st, c, cap, r, t); }
    case DestroyCall(i) => DropMembers(st.tab, {st.tab[i].id}); if t in r.tab { IsListed(r.tab, t); }
    case CleanupCall => CleanLists(st.tab, r.tab, t);
    case GuestCall(s, e) => VisitLists(st, s, e, r, t);
    case _ => OtherLists(st, c, r, t);
  }

  lemma OtherLists(st: ApState, c: Call, r: ApState, t: Sta)
    requires Next(st, c, r) && !Cleans(c) && !c.DestroyCall? && t in st.tab
    ensures Lists(r.tab, t.id)
  {
    var j :| 0 <= j < |st.tab| && st.tab[j] == t;
    hide Next;
    NextPlaces(st, c, r, j);
    IsListed(r.tab, r.tab[j]);
  }

  lemma IsListed(tab: Table, t: Sta)
    requires t in tab
    ensures Lists(tab, t.id)
  {
  }

  lemma CleanLists(tab: Table, r: Table, t: Sta)
    requires DistinctIds(tab) && AfterCleanup(tab, r) && t in tab
    ensures Lists(r, t.id) || (!t.active && !t.pending)
  {
    AfterCleanupPartly(tab, r);
    hide AfterCleanup;
    var ids :| ids <= Evictable(tab) && r == Drop(tab, ids);
    EvictableIds(tab);
    DropMembers(tab, ids);
    hide Drop;
    if t in r { IsListed(r, t); }
  }

  lemma DropLists(st: ApState, i: nat, failSec: bool, now: int, r: ApState, t: Sta)
    requires Shaped(st) && i < |st.tab| && Dropped(st, i, failSec, now, r) && t in st.tab
    ensures Lists(r.tab, t.id) || (!EntryAfter(st, DropCall(i, failSec, now), t).active && !t.pending)
  {
    hide AfterCleanup, CountIf;
    if st.tab[i].active {
      var st1 := BeforeCleanup(st, i, failSec, now);
      var tab :| AfterCleanup(st1.tab, tab) && r == Synced(st1.(tab := tab));
      ReplaceShaped(st, i, Disconnected(st.tab[i], failSec, now));
      var j :| 0 <= j < |st.tab| && st.tab[j] == t;
      CleanLists(st1.tab, tab, st1.tab[j]);
    } else {
      IsListed(st.tab, t);
    }
  }

  lemma CreateLists(st: ApState, c: Call, cap: nat, r: ApState, t: Sta)
    requires DistinctIds(st.tab) && (c.CreateCall? || c.FindCall?) && Created(st, c.s, cap, r) && t in st.tab
    ensures Lists(r.tab, t.id) || (!EntryAfter(st, c, t).active && (!t.pending || Finalises(c, t)))
  {
    hide AfterCleanup;
    var tab :| Finalized(st.tab, c.s.mac, tab) && r == AppendedWithin(st.(tab := tab), c.s, cap);
    if tab == st.tab {
      IsListed(r.tab, t);
    } else {
      var i := FirstWith(st.tab, c.s.mac).value;
      var tab1 := st.tab[i := st.tab[i].(pending := false)];
      var j :| 0 <= j < |st.tab| && st.tab[j] == t;
      assert DistinctIds(tab1);
      CleanLists(tab1, tab, tab1[j]);
      if s: Sta :| s in tab && s.id == t.id { IsListed(r.tab, s); }
    }
  }

  lemma VisitLists(st: ApState, s: Sta, e: Event, r: ApState, t: Sta)
    requires DistinctIds(st.tab) && Visited(st, s, e, r) && t in st.tab
    ensures Lists(r.tab, t.id) || (e.Drops? && !t.active && !t.pending)
  {
    VisitLeaves(st, s, e, r);
    if !e.Drops? || r.tab == st.tab {
      IsListed(st.tab, t);
    } else {
      CleanLists(st.tab, r.tab, t);
    }
    hide AfterCleanup;
  }

  // ---------- the time an entry shows ----------

  /** The call listed the entry, or activated, authenticated or disconnected it; a raised flag is none of these. */
  predicate Touched(st: ApState, c: Call, r: ApState, id: nat) {
    var was, now := Entry(st.tab, id), Entry(r.tab, id);
    !c.RaiseCall? && now.Some? &&
    (was.None? || was.value.active != now.value.active || was.value.authed != now.value.authed)
  }

  /** The time of a call; a created entry brings its own. */
  function TimeOf(c: Call): int {
    match c
    case TryCall(_, now) => now
    case SuccessCall(_, now) => now
    case DropCall(_, _, now) => now
    case CreateCall(s, _) => s.changed
    case FindCall(s, _, _) => s.changed
    case LentCall(_, e) => if e.FailsSecurity? then 0 else e.now
    case _ => 0
  }

  lemma NextTime(st: ApState, c: Call, r: ApState, s: Sta)
    requires Shaped(st) && Next(st, c, r) && s in r.tab
    ensures Touched(st, c, r, s.id) ==> s.changed == TimeOf(c)
    ensures !Touched(st, c, r, s.id) ==>
      Entry(st.tab, s.id).Some? && s.changed == Entry(st.tab, s.id).value.changed
  {
    hide Next, Shaped, Entry, EntryAfter;
    NextFollows(st, c, r, s);
    ApIsShaped(st, c, r);
    EntryIs(r.tab, s);
    if Entry(st.tab, s.id).Some? { ChangeIsTimed(st, c, Entry(st.tab, s.id).value); }
  }

  /** A call that changes the flags of an entry, other than by a raise, sets its time, and no other does. */
  lemma ChangeIsTimed(st: ApState, c: Call, t: Sta)
    ensures
      var s := EntryAfter(st, c, t);
      && (c.RaiseCall? ==> s.changed == t.changed)
      && (!c.RaiseCall? && (s.active != t.active || s.authed != t.authed) ==> s.changed == TimeOf(c))
      && (s.active == t.active && s.authed == t.authed ==> s.changed == t.changed)
  {
  }

  lemma ApIsShaped(st: ApState, c: Call, r: ApState)
    requires Shaped(st) && Next(st, c, r)
    ensures DistinctIds(r.tab) && Shaped(r)
  {
    NextMoves(st, c, r);
    hide Next, Conserved, NrActive, Gain, SuccessesAddUp, Miscounts, Unbalances;
  }

  /** The time of the last call, in the run, that touched the entry. */
  function LastTouch(states: seq<ApState>, calls: seq<Call>, n: nat, id: nat): int
    requires n <= |calls| < |states|
  {
    if n == 0 then 0
    else if Touched(states[n - 1], calls[n - 1], states[n], id) then TimeOf(calls[n - 1])
    else LastTouch(states, calls, n - 1, id)
  }

  /** In every state of every run the time of an entry is that of the last call that activated,
      authenticated or disconnected it, or of its creation. */
  lemma {:induction false} TimeIsLastTouch(states: seq<ApState>, calls: seq<Call>, n: nat, s: Sta)
    requires IsRun(states, calls) && states[0] == INIT_AP && n <= |calls| && s in states[n].tab
    ensures s.changed == LastTouch(states, calls, n, s.id)
  {
    hide Next, Touched, Shaped;
    if n > 0 {
      RunsStayShaped(states, calls, n - 1);
      assert Next(states[n - 1], calls[n - 1], states[n - 1 + 1]);
      NextTime(states[n - 1], calls[n - 1], states[n], s);
      if !Touched(states[n - 1], calls[n - 1], states[n], s.id) {
        TimeIsLastTouch(states, calls, n - 1, Entry(states[n - 1].tab, s.id).value);
      }
    }
  }

  /** A station that disconnects after every inactive one keeps its entry, with the time of
      the disconnection, whatever the clean-up evicts. */
  lemma DropKeepsLatest(st: ApState, i: nat, failSec: bool, now: int, r: ApState)
    requires Shaped(st) && i < |st.tab| && st.tab[i].active && Next(st, DropCall(i, failSec, now), r)
    requires forall x :: x in st.tab && !x.active ==> x.changed < now
    ensures Left(st.tab[i], failSec, now) in r.tab
  {
    NextDropped(st, i, failSec, now, r);
    var st1 := BeforeCleanup(st, i, failSec, now);
    var tab :| AfterCleanup(st1.tab, tab) && r == Synced(st1.(tab := tab));
    ReplaceShaped(st, i, Disconnected(st.tab[i], failSec, now));
    hide AfterCleanup, CountIf;
    var s := Left(st.tab[i], failSec, now);
    assert st1.tab[i] == s;
    LatestStays(st1.tab, tab, s);
  }
}
