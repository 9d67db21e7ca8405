/** The stations of an access point as a value: an ordered table without holes. */
module StationTable {
  import opened Collections

  /** `id` tells entries apart, as their addresses do; `removable` says whether the data
      model lets go of the entry's object. */
  datatype Sta = Sta(
    id: nat,
    mac: nat,
    active: bool,
    authed: bool,
    secFail: bool,
    changed: int,
    pending: bool,
    removable: bool)

  type Table = seq<Sta>

  const NR_OF_STICKY_UNAUTHORIZED_STATIONS := 1

  const BROADCAST := 0xFFFF_FFFF_FFFF

  ghost predicate DistinctIds(tab: Table) {
    forall i, j :: 0 <= i < j < |tab| ==> tab[i].id != tab[j].id
  }

  ghost predicate DistinctMacs(tab: Table) {
    forall i, j :: 0 <= i < j < |tab| ==> tab[i].mac != tab[j].mac
  }

  // ---------- counting ----------

  function CountIf(tab: Table, p: Sta -> bool): nat {
    if tab == [] then 0 else CountIf(tab[..|tab| - 1], p) + if p(tab[|tab| - 1]) then 1 else 0
  }

  function NrActive(tab: Table): nat {
    CountIf(tab, (s: Sta) => s.active)
  }

  function NrInactive(tab: Table): nat {
    CountIf(tab, (s: Sta) => !s.active)
  }

  lemma {:induction false} CountIfAppend(a: Table, b: Table, p: Sta -> bool)
    ensures CountIf(a + b, p) == CountIf(a, p) + CountIf(b, p)
  {
    if b == [] {
      assert a + b == a;
    } else {
      var n := |b| - 1;
      assert (a + b)[..|a + b| - 1] == a + b[..n];
      CountIfAppend(a, b[..n], p);
    }
  }

  lemma CountIfOne(s: Sta, p: Sta -> bool)
    ensures CountIf([s], p) == if p(s) then 1 else 0
  {
    assert [s][..0] == [];
  }

  /** Replacing one entry moves a count by what that entry contributes. */
  lemma CountIfUpdate(tab: Table, i: nat, s: Sta, p: Sta -> bool)
    requires i < |tab|
    ensures CountIf(tab[i := s], p) == CountIf(tab, p) - (if p(tab[i]) then 1 else 0) + (if p(s) then 1 else 0)
  {
    assert tab == tab[..i] + ([tab[i]] + tab[i + 1..]);
    assert tab[i := s] == tab[..i] + ([s] + tab[i + 1..]);
    CountIfAppend(tab[..i], [tab[i]] + tab[i + 1..], p);
    CountIfAppend([tab[i]], tab[i + 1..], p);
    CountIfAppend(tab[..i], [s] + tab[i + 1..], p);
    CountIfAppend([s], tab[i + 1..], p);
    CountIfOne(tab[i], p);
    CountIfOne(s, p);
  }

  lemma {:induction false} CountIfBound(tab: Table, p: Sta -> bool)
    ensures CountIf(tab, p) <= |tab|
    ensures CountIf(tab, p) == 0 <==> forall s :: s in tab ==> !p(s)
  {
    if tab != [] {
      CountIfBound(tab[..|tab| - 1], p);
      assert forall s :: s in tab <==> s in tab[..|tab| - 1] || s == tab[|tab| - 1];
    }
  }

  // ---------- dropping entries ----------

  /** The table without the entries in `ids`; the others keep their order. */
  function Drop(tab: Table, ids: set<nat>): Table {
    if tab == [] then []
    else Drop(tab[..|tab| - 1], ids) + if tab[|tab| - 1].id in ids then [] else [tab[|tab| - 1]]
  }

  lemma DropAppend(tab: Table, s: Sta, ids: set<nat>)
    ensures Drop(tab + [s], ids) == Drop(tab, ids) + if s.id in ids then [] else [s]
  {
    assert (tab + [s])[..|tab|] == tab;
  }

  lemma {:induction false} DropMembers(tab: Table, ids: set<nat>)
    ensures forall s :: s in Drop(tab, ids) <==> s in tab && s.id !in ids
  {
    if tab != [] {
      var n := |tab| - 1;
      DropMembers(tab[..n], ids);
      assert forall s :: s in tab <==> s in tab[..n] || s == tab[n];
    }
  }

  /** Dropping entries only moves the remaining ones towards the front, in the same order. */
  lemma {:induction false} DropMoves(tab: Table, ids: set<nat>)
    returns (from: seq<nat>)
    ensures |from| == |Drop(tab, ids)|
    ensures forall j :: 0 <= j < |from| ==> j <= from[j] < |tab| && Drop(tab, ids)[j] == tab[from[j]]
    ensures forall j, k :: 0 <= j < k < |from| ==> from[j] < from[k]
  {
    if tab == [] {
      from := [];
    } else {
      var n := |tab| - 1;
      from := DropMoves(tab[..n], ids);
      assert Drop(tab, ids) == Drop(tab[..n], ids) + if tab[n].id in ids then [] else [tab[n]];
      hide Drop;
      assert |from| > 0 ==> |from| - 1 <= from[|from| - 1];
      if tab[n].id !in ids {
        from := from + [n];
      }
    }
  }

  lemma {:induction false} DropDistinct(tab: Table, ids: set<nat>)
    ensures DistinctIds(tab) ==> DistinctIds(Drop(tab, ids))
    ensures DistinctMacs(tab) ==> DistinctMacs(Drop(tab, ids))
  {
    var from := DropMoves(tab, ids);
  }

  lemma {:induction false} DropCount(tab: Table, ids: set<nat>, p: Sta -> bool)
    ensures CountIf(Drop(tab, ids), p) == CountIf(tab, (s: Sta) => p(s) && s.id !in ids)
  {
    if tab != [] {
      var n := |tab| - 1;
      DropCount(tab[..n], ids, p);
      CountIfAppend(Drop(tab[..n], ids), if tab[n].id in ids then [] else [tab[n]], p);
      CountIfOne(tab[n], p);
    }
  }

  lemma {:induction false} CountIfSame(tab: Table, p: Sta -> bool, q: Sta -> bool)
    requires forall s :: s in tab ==> p(s) == q(s)
    ensures CountIf(tab, p) == CountIf(tab, q)
  {
    if tab != [] {
      assert tab[|tab| - 1] in tab;
      forall s | s in tab[..|tab| - 1] ensures s in tab {}
      CountIfSame(tab[..|tab| - 1], p, q);
    }
  }

  /** Dropping entries that do not count does not change a count. */
  lemma DropKeepsCount(tab: Table, ids: set<nat>, p: Sta -> bool)
    requires forall s :: s in tab && s.id in ids ==> !p(s)
    ensures CountIf(Drop(tab, ids), p) == CountIf(tab, p)
  {
    DropCount(tab, ids, p);
    CountIfSame(tab, p, (s: Sta) => p(s) && s.id !in ids);
  }

  lemma {:induction false} DropTwice(tab: Table, a: set<nat>, b: set<nat>)
    ensures Drop(Drop(tab, a), b) == Drop(tab, a + b)
  {
    if tab != [] {
      var n := |tab| - 1;
      DropTwice(tab[..n], a, b);
      if tab[n].id !in a {
        DropAppend(Drop(tab[..n], a), tab[n], b);
      } else {
        assert Drop(tab, a) == Drop(tab[..n], a);
      }
    }
  }

  lemma {:induction false} DropNone(tab: Table, ids: set<nat>)
    requires forall s :: s in tab ==> s.id !in ids
    ensures Drop(tab, ids) == tab
  {
    if tab != [] {
      forall s | s in tab[..|tab| - 1] ensures s in tab {}
      DropNone(tab[..|tab| - 1], ids);
      assert tab[|tab| - 1] in tab;
    }
  }

  /** Taking out the entry at one index is dropping its id. */
  lemma {:induction false} RemoveIsDrop(tab: Table, i: nat)
    requires i < |tab| && DistinctIds(tab)
    ensures tab[..i] + tab[i + 1..] == Drop(tab, {tab[i].id})
  {
    var n := |tab| - 1;
    var prev, s := tab[..n], tab[n];
    assert tab == prev + [s];
    DropAppend(prev, s, {tab[i].id});
    hide Drop;
    if i == n {
      DropNone(prev, {s.id});
      assert tab[..i] + tab[i + 1..] == prev;
    } else {
      RemoveIsDrop(prev, i);
      assert prev[i] == tab[i] && s.id != tab[i].id;
      assert tab[..i] + tab[i + 1..] == (prev[..i] + prev[i + 1..]) + [s];
    }
  }

  // ---------- wld_vap_cleanup_stationlist ----------

  /** The entries an eviction may take: inactive, and no notification pending. */
  ghost function Evictable(tab: Table): set<nat> {
    set s | s in tab && !s.active && !s.pending :: s.id
  }

  /** No inactive entry changed later than the one with id `k`, which is inactive. */
  ghost predicate IsNewest(tab: Table, k: nat) {
    exists s :: s in tab && s.id == k && !s.active && forall x :: x in tab && !x.active ==> x.changed <= s.changed
  }

  /** A successful clean-up: with more inactive entries than the sticky ones, all evictable
      ones go but a newest one. */
  ghost predicate CleanedUp(tab: Table, r: Table) {
    if NrInactive(tab) <= NR_OF_STICKY_UNAUTHORIZED_STATIONS then r == tab
    else exists k :: IsNewest(tab, k) && r == Drop(tab, Evictable(tab) - {k})
  }

  /** Some evictable entries are gone. */
  ghost predicate PartlyCleaned(tab: Table, r: Table) {
    exists ids :: ids <= Evictable(tab) && r == Drop(tab, ids)
  }

  /** A clean-up that stopped at an entry the data model holds on to: no entry that is gone
      is newer, and no evictable entry that is left is older. */
  ghost predicate StuckAt(tab: Table, r: Table, s: Sta) {
    && s in r && !s.active && !s.pending && !s.removable
    && (forall x :: x in tab && x !in r ==> x.changed <= s.changed)
    && (forall x :: x in r && !x.active && !x.pending ==> s.changed <= x.changed)
  }

  ghost predicate BrokenOff(tab: Table, r: Table) {
    PartlyCleaned(tab, r) && exists s :: StuckAt(tab, r, s)
  }

  /** What a clean-up leaves behind. */
  ghost predicate AfterCleanup(tab: Table, r: Table) {
    CleanedUp(tab, r) || BrokenOff(tab, r)
  }

  lemma AfterCleanupPartly(tab: Table, r: Table)
    requires AfterCleanup(tab, r)
    ensures PartlyCleaned(tab, r)
  {
    hide CleanedUp;
    if CleanedUp(tab, r) { CleanedUpPartly(tab, r); }
  }

  lemma CleanedUpPartly(tab: Table, r: Table)
    requires CleanedUp(tab, r)
    ensures PartlyCleaned(tab, r)
  {
    if NrInactive(tab) <= NR_OF_STICKY_UNAUTHORIZED_STATIONS {
      DropNone(tab, {});
      assert {} <= Evictable(tab) && r == Drop(tab, {});
    } else {
      var k :| IsNewest(tab, k) && r == Drop(tab, Evictable(tab) - {k});
      assert Evictable(tab) - {k} <= Evictable(tab);
    }
  }

  lemma PartlyMembers(tab: Table, r: Table)
    requires PartlyCleaned(tab, r)
    ensures |r| <= |tab| && forall x :: x in r ==> x in tab
  {
    var ids :| ids <= Evictable(tab) && r == Drop(tab, ids);
    DropMembers(tab, ids);
    var from := DropMoves(tab, ids);
    hide Drop;
    assert |from| > 0 ==> |from| - 1 <= from[|from| - 1];
  }

  /** `r` lists some entries of `tab` in the order in which `tab` has them. */
  ghost predicate InOrder(tab: Table, r: Table) {
    exists from: seq<nat> :: Embeds(tab, r, from)
  }

  ghost predicate Embeds(tab: Table, r: Table, from: seq<nat>) {
    && |from| == |r|
    && (forall j :: 0 <= j < |from| ==> j <= from[j] < |tab| && r[j] == tab[from[j]])
    && (forall j, k :: 0 <= j < k < |from| ==> from[j] < from[k])
  }

  lemma DropInOrder(tab: Table, ids: set<nat>)
    ensures InOrder(tab, Drop(tab, ids))
  {
    var from := DropMoves(tab, ids);
    assert Embeds(tab, Drop(tab, ids), from);
  }

  lemma {:induction false} CountIdOnce(tab: Table, k: nat)
    requires DistinctIds(tab)
    ensures CountIf(tab, (s: Sta) => s.id == k) <= 1
  {
    if tab != [] {
      var n := |tab| - 1;
      CountIdOnce(tab[..n], k);
      if tab[n].id == k {
        CountIfBound(tab[..n], (s: Sta) => s.id == k);
      }
    }
  }

  lemma {:induction false} CountIfOr(tab: Table, p: Sta -> bool, q: Sta -> bool, r: Sta -> bool)
    requires forall s :: s in tab && p(s) ==> q(s) || r(s)
    ensures CountIf(tab, p) <= CountIf(tab, q) + CountIf(tab, r)
  {
    if tab != [] {
      assert tab[|tab| - 1] in tab;
      forall s | s in tab[..|tab| - 1] ensures s in tab {}
      CountIfOr(tab[..|tab| - 1], p, q, r);
    }
  }

  /** What a successful clean-up means: active entries and entries with a pending
      notification stay, the rest keeps its order, besides the pending ones at most the
      sticky number stays inactive, and no removed entry is newer than a kept one that
      could have been removed. */
  lemma CleanupOutcome(tab: Table, r: Table)
    requires DistinctIds(tab) && CleanedUp(tab, r)
    ensures InOrder(tab, r)
    ensures forall s :: s in tab && (s.active || s.pending) ==> s in r
    ensures NrInactive(r) <= NR_OF_STICKY_UNAUTHORIZED_STATIONS + CountIf(r, (s: Sta) => !s.active && s.pending)
    ensures forall s, x :: s in tab && s !in r && x in r && !x.active && !x.pending ==> s.changed <= x.changed
  {
    if NrInactive(tab) <= NR_OF_STICKY_UNAUTHORIZED_STATIONS {
      DropNone(tab, {});
      DropInOrder(tab, {});
    } else {
      var k :| IsNewest(tab, k) && r == Drop(tab, Evictable(tab) - {k});
      var ids := Evictable(tab) - {k};
      DropMembers(tab, ids);
      DropInOrder(tab, ids);
      DropDistinct(tab, ids);
      EvictableIds(tab);
      CountIdOnce(r, k);
      CountIfOr(r, (s: Sta) => !s.active, (s: Sta) => s.id == k, (s: Sta) => !s.active && s.pending);
      var top :|
        top in tab && top.id == k && !top.active && forall x :: x in tab && !x.active ==> x.changed <= top.changed;
      forall s, x | s in tab && s !in r && x in r && !x.active && !x.pending ensures s.changed <= x.changed {
        SameEntry(tab, x, top);
      }
    }
  }

  lemma SameEntry(tab: Table, x: Sta, y: Sta)
    requires DistinctIds(tab) && x in tab && y in tab && x.id == y.id
    ensures x == y
  {
    var i :| 0 <= i < |tab| && tab[i] == x;
    var j :| 0 <= j < |tab| && tab[j] == y;
  }

  /** With distinct ids, an id is evictable exactly when its entry is inactive and not pending. */
  lemma EvictableIds(tab: Table)
    requires DistinctIds(tab)
    ensures forall s :: s in tab ==> (s.id in Evictable(tab) <==> !s.active && !s.pending)
  {
    forall s | s in tab && s.id in Evictable(tab) ensures !s.active && !s.pending {
      var x :| x in tab && !x.active && !x.pending && x.id == s.id;
      SameEntry(tab, x, s);
    }
  }

  /** A clean-up, complete or not, does not touch what counts active entries. */
  lemma CleanupKeepsActive(tab: Table, r: Table, p: Sta -> bool)
    requires DistinctIds(tab) && PartlyCleaned(tab, r)
    requires forall s :: s in tab && p(s) ==> s.active
    ensures CountIf(r, p) == CountIf(tab, p) && DistinctIds(r) && (DistinctMacs(tab) ==> DistinctMacs(r))
    ensures |r| <= |tab| && forall s :: s in r ==> s in tab
  {
    var ids :| ids <= Evictable(tab) && r == Drop(tab, ids);
    EvictableIds(tab);
    DropKeepsCount(tab, ids, p);
    DropDistinct(tab, ids);
    DropMembers(tab, ids);
    DropInOrder(tab, ids);
  }

  // ---------- walking through the inactive entries, oldest first ----------

  /** The inactive entries of a table, oldest first. */
  ghost predicate InactiveByAge(tab: Table, ss: seq<Sta>) {
    && DistinctIds(ss) && |ss| == NrInactive(tab)
    && (forall s :: s in ss <==> s in tab && !s.active)
    && (forall i, j :: 0 <= i < j < |ss| ==> ss[i].changed <= ss[j].changed)
  }

  /** The ids of the entries without a pending notification. */
  ghost function Removable(ss: seq<Sta>): set<nat> {
    set s | s in ss && !s.pending :: s.id
  }

  lemma RemovableNext(ss: seq<Sta>, i: nat)
    requires i < |ss|
    ensures Removable(ss[..i + 1]) == Removable(ss[..i]) + if ss[i].pending then {} else {ss[i].id}
  {
    assert ss[..i + 1] == ss[..i] + [ss[i]];
  }

  lemma RemovableEvictable(tab: Table, ss: seq<Sta>, i: nat)
    requires InactiveByAge(tab, ss) && i <= |ss|
    ensures Removable(ss[..i]) <= Evictable(tab)
  {
    forall s | s in ss[..i] ensures s in ss {}
  }

  /** Removing all but the last of the sorted entries is a complete clean-up. */
  lemma AllButNewest(tab: Table, ss: seq<Sta>)
    requires DistinctIds(tab) && InactiveByAge(tab, ss) && |ss| > NR_OF_STICKY_UNAUTHORIZED_STATIONS
    ensures CleanedUp(tab, Drop(tab, Removable(ss[..|ss| - NR_OF_STICKY_UNAUTHORIZED_STATIONS])))
  {
    var last := |ss| - 1;
    var k := ss[last].id;
    var ids := Removable(ss[..last]);
    assert ss[last] in ss;
    assert IsNewest(tab, k) by {
      forall x | x in tab && !x.active ensures x.changed <= ss[last].changed {
        assert x in ss;
      }
    }
    RemovableEvictable(tab, ss, last);
    forall id | id in ids ensures id != k {
      var s :| s in ss[..last] && s.id == id;
    }
    forall id | id in Evictable(tab) && id != k ensures id in ids {
      var s :| s in tab && !s.active && !s.pending && s.id == id;
      assert s in ss;
      assert ss == ss[..last] + [ss[last]];
    }
    assert ids == Evictable(tab) - {k};
  }

  /** The entries removed before one of the sorted entries are no newer than it. */
  lemma GoneAreOlder(tab: Table, ss: seq<Sta>, i: nat, x: Sta)
    requires DistinctIds(tab) && InactiveByAge(tab, ss) && i < |ss| && x in tab && x.id in Removable(ss[..i])
    ensures x.changed <= ss[i].changed
  {
    var s :| s in ss[..i] && !s.pending && s.id == x.id;
    var j :| 0 <= j < i && ss[j] == s;
    assert ss[j] in ss;
    SameEntry(tab, ss[j], x);
  }

  /** The removable entries not removed before it are no older than it. */
  lemma LeftAreNewer(tab: Table, ss: seq<Sta>, i: nat, x: Sta)
    requires InactiveByAge(tab, ss) && i < |ss| && x in tab && !x.active && !x.pending && x.id !in Removable(ss[..i])
    ensures ss[i].changed <= x.changed
  {
    hide CountIf, DistinctIds;
    assert x in ss && x !in ss[..i] && ss == ss[..i] + ss[i..];
    var j :| 0 <= j < |ss[i..]| && ss[i..][j] == x;
    assert ss[i + j] == x;
  }

  lemma NotYetRemoved(ss: seq<Sta>, i: nat)
    requires DistinctIds(ss) && i < |ss|
    ensures ss[i].id !in Removable(ss[..i])
  {
  }

  /** Stopping at one of the sorted entries leaves a clean-up broken off there. */
  lemma StopsAt(tab: Table, ss: seq<Sta>, i: nat)
    requires DistinctIds(tab) && InactiveByAge(tab, ss) && i < |ss| && !ss[i].pending && !ss[i].removable
    ensures BrokenOff(tab, Drop(tab, Removable(ss[..i])))
  {
    var ids := Removable(ss[..i]);
    var r := Drop(tab, ids);
    assert ss[i] in ss && ss[i] in tab && !ss[i].active;
    NotYetRemoved(ss, i);
    RemovableEvictable(tab, ss, i);
    DropMembers(tab, ids);
    hide Drop, Removable, InactiveByAge, DistinctIds, Evictable;
    forall x | x in tab && x !in r ensures x.changed <= ss[i].changed {
      GoneAreOlder(tab, ss, i, x);
    }
    forall x | x in r && !x.active && !x.pending ensures ss[i].changed <= x.changed {
      LeftAreNewer(tab, ss, i, x);
    }
    assert StuckAt(tab, r, ss[i]);
  }

  /** A clean-up brings the inactive entries down to the limit, unless an entry cannot be removed. */
  lemma RestAfterCleanup(tab: Table, r: Table)
    requires DistinctIds(tab) && AfterCleanup(tab, r)
    ensures
      || NrInactive(r) <= NR_OF_STICKY_UNAUTHORIZED_STATIONS + CountIf(r, (s: Sta) => !s.active && s.pending)
      || exists s :: s in r && !s.pending && !s.removable
  {
    if CleanedUp(tab, r) {
      CleanupOutcome(tab, r);
    } else {
      var s :| StuckAt(tab, r, s);
    }
  }

  lemma {:induction false} NewestExists(tab: Table)
    requires NrInactive(tab) > 0
    ensures exists s :: Newest(tab, s)
  {
    var n := |tab| - 1;
    var rest, t := tab[..n], tab[n];
    assert forall x :: x in tab <==> x in rest || x == t;
    if NrInactive(rest) > 0 {
      NewestExists(rest);
      var s :| Newest(rest, s);
      assert Newest(tab, if !t.active && s.changed < t.changed then t else s);
    } else {
      CountIfBound(rest, (s: Sta) => !s.active);
      assert Newest(tab, t);
    }
  }

  /** An inactive entry of the table that no other changed after. */
  ghost predicate Newest(tab: Table, s: Sta) {
    s in tab && !s.active && forall x :: x in tab && !x.active ==> x.changed <= s.changed
  }

  /** However a clean-up ends, a newest inactive entry is still there. */
  lemma NewestStays(tab: Table, r: Table)
    requires DistinctIds(tab) && AfterCleanup(tab, r) && NrInactive(tab) > 0
    ensures exists s :: Newest(tab, s) && s in r
  {
    NewestExists(tab);
    var s :| Newest(tab, s);
    if CleanedUp(tab, r) {
      if NrInactive(tab) > NR_OF_STICKY_UNAUTHORIZED_STATIONS { NewestLeft(tab, r); }
    } else {
      var t :| StuckAt(tab, r, t);
      PartlyMembers(tab, r);
      if s !in r { assert Newest(tab, t); }
    }
  }

  lemma NewestLeft(tab: Table, r: Table)
    requires DistinctIds(tab) && CleanedUp(tab, r) && NrInactive(tab) > NR_OF_STICKY_UNAUTHORIZED_STATIONS
    ensures exists s :: Newest(tab, s) && s in r
  {
    var k :| IsNewest(tab, k) && r == Drop(tab, Evictable(tab) - {k});
    DropMembers(tab, Evictable(tab) - {k});
    hide Drop;
    var s :| s in tab && s.id == k && !s.active && forall x :: x in tab && !x.active ==> x.changed <= s.changed;
    assert Newest(tab, s);
  }

  /** An inactive entry that changed after all the others survives every clean-up. */
  lemma LatestStays(tab: Table, r: Table, s: Sta)
    requires DistinctIds(tab) && AfterCleanup(tab, r) && s in tab && !s.active
    requires forall x :: x in tab && !x.active && x != s ==> x.changed < s.changed
    ensures s in r
  {
    CountIfBound(tab, (x: Sta) => !x.active);
    NewestStays(tab, r);
    var t :| Newest(tab, t) && t in r;
    hide CountIf, AfterCleanup;
  }

  /** All entries from index `p` on are inactive. */
  ghost predicate InactiveFrom(tab: Table, p: nat) {
    forall j :: p <= j < |tab| ==> !tab[j].active
  }

  /** Evictions only move entries towards the front, so none that is active gets behind `p`. */
  lemma EvictionKeepsInactiveFrom(tab: Table, r: Table, p: nat)
    requires InactiveFrom(tab, p) && PartlyCleaned(tab, r)
    ensures InactiveFrom(r, p)
  {
    var ids :| ids <= Evictable(tab) && r == Drop(tab, ids);
    var from := DropMoves(tab, ids);
  }

  /** A new entry at the end of a table with distinct addresses. */
  lemma AppendMacs(tab: Table, s: Sta)
    requires DistinctMacs(tab)
    ensures DistinctMacs(tab + [s]) <==> forall x :: x in tab ==> x.mac != s.mac
  {
    var r := tab + [s];
    if DistinctMacs(r) {
      forall x | x in tab ensures x.mac != s.mac {
        var i :| 0 <= i < |tab| && tab[i] == x;
        assert r[i] == x && r[|tab|] == s;
      }
    }
  }

  // ---------- addresses ----------

  /** The first entry with the address. */
  function FirstWith(tab: Table, mac: nat): (r: Option<nat>)
    ensures r.Some? ==> r.value < |tab| && tab[r.value].mac == mac && forall j :: 0 <= j < r.value ==> tab[j].mac != mac
    ensures r.None? ==> forall s :: s in tab ==> s.mac != mac
  {
    if tab == [] then None
    else if tab[0].mac == mac then Some(0)
    else match FirstWith(tab[1..], mac) case Some(i) => Some(i + 1) case None => None
  }

  /** With distinct addresses the lookup of any entry's address finds that entry. */
  lemma LookupFinds(tab: Table, i: nat)
    requires DistinctMacs(tab) && i < |tab|
    ensures FirstWith(tab, tab[i].mac) == Some(i)
  {
    var r := FirstWith(tab, tab[i].mac);
    assert tab[i] in tab;
  }

  /** Finalising leaves no pending notification at an entry with the address, if addresses are distinct. */
  lemma FinalizedEnds(tab: Table, mac: nat, r: Table)
    requires DistinctMacs(tab) && Finalized(tab, mac, r)
    ensures forall s :: s in r && s.mac == mac ==> !s.pending
  {
    hide CleanedUp, BrokenOff;
    match FirstWith(tab, mac)
    case None =>
    case Some(i) =>
      var tab1 := tab[i := tab[i].(pending := false)];
      forall s | s in tab1 && s.mac == mac && tab[i].pending ensures !s.pending {
        var j :| 0 <= j < |tab1| && tab1[j] == s;
        assert j != i ==> tab[j].mac != tab[i].mac;
      }
      if tab[i].pending {
        AfterCleanupPartly(tab1, r);
        PartlyMembers(tab1, r);
      } else {
        forall s | s in tab && s.mac == mac ensures !s.pending {
          var j :| 0 <= j < |tab| && tab[j] == s;
          assert j != i ==> tab[j].mac != tab[i].mac;
        }
      }
  }

  /** wld_ad_finalizeDelayedDisassocNotif: a pending notification of the first entry with the
      address is over, and a clean-up follows. */
  ghost predicate Finalized(tab: Table, mac: nat, r: Table) {
    match FirstWith(tab, mac)
    case Some(i) => if tab[i].pending then AfterCleanup(tab[i := tab[i].(pending := false)], r) else r == tab
    case None => r == tab
  }

  /** Finalising changes one flag and evicts inactive entries. */
  lemma FinalizedMacs(tab: Table, mac: nat, r: Table)
    requires DistinctIds(tab) && DistinctMacs(tab) && Finalized(tab, mac, r)
    ensures DistinctMacs(r) && |r| <= |tab|
  {
    hide CleanedUp, BrokenOff;
    if r != tab {
      var i := FirstWith(tab, mac).value;
      var tab1 := tab[i := tab[i].(pending := false)];
      AfterCleanupPartly(tab1, r);
      CleanupKeepsActive(tab1, r, (s: Sta) => s.active);
    }
  }
}
