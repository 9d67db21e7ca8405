/**
  The stations of an access point as they are kept: objects in a fixed array that is
  appended to and compacted in place, a counter of active stations that is brought up to
  date at the end of each step, and the total of the radio.
 */
module AccessPoints {
  import opened Collections
  import opened StationTable
  import A = Admission
  import R = StationRuns
  import T = RadioTotals

  class Station {
    ghost const id: nat
    const mac: nat
    var active: bool
    var authed: bool
    var secFail: bool
    var changed: int
    var pending: bool
    var removable: bool

    /** The access points of neighbour links through which this station is connected as well. */
    var affiliated: seq<AccessPoint>

    constructor (ghost id: nat, mac: nat, now: int)
      ensures this.id == id && this.mac == mac && changed == now
      ensures !active && !authed && !secFail && !pending && removable
    {
      this.id := id;
      this.mac := mac;
      active, authed, secFail, changed, pending, removable := false, false, false, now, false, true;
      affiliated := [];
    }
  }

  /** What a station shows. */
  ghost function Snap(x: Station): Sta
    reads x
  {
    Sta(x.id, x.mac, x.active, x.authed, x.secFail, x.changed, x.pending, x.removable)
  }

  ghost predicate AllShow(xs: seq<Station>, tab: Table)
    reads xs
  {
    |xs| == |tab| && forall i :: 0 <= i < |xs| ==> Snap(xs[i]) == tab[i]
  }

  class Radio {
    var aps: seq<AccessPoint>
    var currentStations: int
    var maxStations: int
    var maxNrHwSta: nat

    /** wld_rad_updateActiveDevices. */
    method UpdateActiveDevices()
      modifies this`currentStations
      ensures currentStations == SumActive(aps)
    {
      var nrActiveDevices := 0;
      for i := 0 to |aps|
        invariant nrActiveDevices == SumActive(aps[..i])
      {
        assert aps[..i + 1][..i] == aps[..i];
        nrActiveDevices := nrActiveDevices + aps[i].nrActive;
      }
      assert aps[..|aps|] == aps;
      currentStations := nrActiveDevices;
    }

    /** s_setMaxStations_pwf of a radio: a value out of range is refused. */
    method SetMaxStations(nMaxSta: int)
      modifies this`maxStations
      ensures maxStations == if 0 <= nMaxSta <= maxNrHwSta then nMaxSta else old(maxStations)
      ensures T.Next(old(Shows()), T.LimitsCall(T.Limits(maxStations, maxNrHwSta)), Shows())
    {
      if nMaxSta < 0 || nMaxSta > maxNrHwSta {
        return;
      }
      maxStations := nMaxSta;
    }

    /** The radio's access points, its cached total and its maxima. */
    ghost function Shows(): T.RadioState
      reads this, aps
    {
      T.RadioState(ShowAps(aps), currentStations, T.Limits(maxStations, maxNrHwSta))
    }

    /** While one access point changes, the others show the same. */
    twostate lemma OneChanged(k: nat)
      requires aps == old(aps) && k < |aps| && aps[k].maxStations == old(aps[k].maxStations)
      requires forall j :: 0 <= j < |aps| && j != k ==> unchanged(aps[j])
      ensures ShowAps(aps) == old(ShowAps(aps))[k := old(ShowAps(aps))[k].(st := aps[k].State())]
      ensures T.Sum(ShowAps(aps)) == SumActive(aps)
    {
      SumShows(aps);
    }
  }

  ghost function ShowAps(aps: seq<AccessPoint>): seq<T.Ap>
    reads aps
  {
    seq(|aps|, i requires 0 <= i < |aps| reads aps => T.Ap(aps[i].maxStations, aps[i].State()))
  }

  lemma {:induction false} SumShows(aps: seq<AccessPoint>)
    ensures T.Sum(ShowAps(aps)) == SumActive(aps)
  {
    if aps != [] {
      var n := |aps| - 1;
      SumShows(aps[..n]);
      assert ShowAps(aps)[..n] == ShowAps(aps[..n]);
    }
  }

  ghost function SumActive(aps: seq<AccessPoint>): int
    reads aps`nrActive
  {
    if aps == [] then 0 else SumActive(aps[..|aps| - 1]) + aps[|aps| - 1].nrActive
  }

  twostate lemma {:induction false} SameSum(aps: seq<AccessPoint>)
    requires forall a :: a in aps ==> a.nrActive == old(a.nrActive)
    ensures SumActive(aps) == old(SumActive(aps))
  {
    if aps != [] {
      var n := |aps| - 1;
      assert aps[n] in aps && forall a :: a in aps[..n] ==> a in aps;
      SameSum(aps[..n]);
    }
  }

  class AccessPoint {
    const devs: array<Station?>
    const rad: Radio
    var n: nat
    var nrActive: int
    var maxStations: int
    var nrSuccess: nat
    var nrFail: nat
    var nrFailSecurity: nat
    var nrDisconnect: nat

    /** The stations of the table and what they show; ids and activations given out so far. */
    ghost var xs: seq<Station>
    ghost var tab: Table
    ghost var nextId: nat
    ghost var attempts: nat

    ghost predicate ArrayRep(xs: seq<Station>)
      reads this`n, devs
    {
      && n == |xs| <= devs.Length
      && (forall i :: 0 <= i < n ==> devs[i] == xs[i])
      && (forall i :: n <= i < devs.Length ==> devs[i] == null)
    }

    ghost predicate IdsRep(tab: Table, nextId: nat) {
      DistinctIds(tab) && forall s :: s in tab ==> s.id < nextId
    }

    /** Entries below the count are the table's stations, slots above are null. */
    ghost predicate Rep()
      reads this, devs, xs
    {
      ArrayRep(xs) && AllShow(xs, tab) && IdsRep(tab, nextId)
    }

    ghost function State(): R.ApState
      reads this
    {
      R.ApState(tab, nrActive, nrSuccess, nrFail, nrFailSecurity, nrDisconnect, attempts)
    }

    /** The place of this access point, and of no other, in the list of its radio. */
    ghost predicate OnRadio(k: nat)
      reads rad`aps
    {
      k < |rad.aps| && forall j :: 0 <= j < |rad.aps| ==> (rad.aps[j] == this <==> j == k)
    }

    /** An access point without stations; the array has one slot more than the allowed stations. */
    constructor (rad: Radio, maxNrSta: nat, maxStations: int)
      ensures Rep() && State() == R.INIT_AP && this.rad == rad && fresh(devs)
      ensures devs.Length == maxNrSta + NR_OF_STICKY_UNAUTHORIZED_STATIONS
    {
      devs := new Station?[maxNrSta + NR_OF_STICKY_UNAUTHORIZED_STATIONS](_ => null);
      this.rad, this.maxStations := rad, maxStations;
      n, nrActive, nrSuccess, nrFail, nrFailSecurity, nrDisconnect := 0, 0, 0, 0, 0, 0;
      xs, tab, nextId, attempts := [], [], 0, 0;
    }

    // ---------- single writes ----------

    /** The fields of a station, which any access point can write, and what its own one shows of it. */
    static method WriteStation(ghost owner: AccessPoint, ghost i: nat, x: Station, active: bool, authed: bool,
      secFail: bool, changed: int)
      requires owner.Rep() && i < |owner.xs| && owner.xs[i] == x
      modifies owner`tab, x
      ensures owner.Rep() && i < |old(owner.tab)|
      ensures owner.tab == old(owner.tab)[i := old(owner.tab)[i].(active := active, authed := authed,
        secFail := secFail, changed := changed)]
      ensures x.active == active && x.authed == authed && x.secFail == secFail && x.changed == changed
      ensures x.pending == old(x.pending) && x.removable == old(x.removable)
    {
      WriteFields(owner, i, x, active, authed, secFail, changed);
      owner.tab := owner.tab[i := owner.tab[i].(active := active, authed := authed, secFail := secFail,
        changed := changed)];
    }

    static method WriteFields(ghost owner: AccessPoint, ghost i: nat, x: Station, active: bool, authed: bool,
      secFail: bool, changed: int)
      requires AllShow(owner.xs, owner.tab) && DistinctIds(owner.tab) && i < |owner.xs| && owner.xs[i] == x
      modifies x
      ensures AllShow(owner.xs, owner.tab[i := owner.tab[i].(active := active, authed := authed, secFail := secFail,
        changed := changed)])
      ensures x.active == active && x.authed == authed && x.secFail == secFail && x.changed == changed
      ensures x.pending == old(x.pending) && x.removable == old(x.removable)
    {
      x.active, x.authed, x.secFail, x.changed := active, authed, secFail, changed;
    }

    /** The compaction at the end of wld_ad_destroy_associatedDevice. */
    method Compact(index: nat)
      requires Rep() && index < n
      modifies this`n, this`xs, this`tab, devs
      ensures Rep()
      ensures xs == old(xs)[..index] + old(xs)[index + 1..] && index < |old(tab)|
      ensures tab == Drop(old(tab), {old(tab)[index].id})
    {
      hide ArrayRep, AllShow, IdsRep, Drop;
      DropShows(index);
      CompactArray(index);
      xs := xs[..index] + xs[index + 1..];
      tab := Drop(tab, {tab[index].id});
    }

    method CompactArray(index: nat)
      requires ArrayRep(xs) && index < n
      modifies this`n, devs
      ensures index < |xs| && ArrayRep(xs[..index] + xs[index + 1..])
    {
      ShiftDown(devs, index, n);
      devs[n - 1] := null;
      n := n - 1;
    }

    lemma DropShows(index: nat)
      requires Rep() && index < n
      ensures index < |xs| == |tab|
      ensures AllShow(xs[..index] + xs[index + 1..], Drop(tab, {tab[index].id}))
      ensures IdsRep(Drop(tab, {tab[index].id}), nextId)
    {
      hide Drop, ArrayRep, AllShow;
      Entries();
      RemoveIsDrop(tab, index);
      RestShows(index);
      hide DistinctIds;
      DropMembers(tab, {tab[index].id});
      DropDistinct(tab, {tab[index].id});
    }

    lemma RestShows(index: nat)
      requires AllShow(xs, tab) && index < |xs|
      ensures AllShow(xs[..index] + xs[index + 1..], tab[..index] + tab[index + 1..])
    {
    }

    // ---------- lookups ----------

    /** What the slots and the entries of the table are. */
    lemma Entries()
      requires Rep()
      ensures n == |xs| == |tab| <= devs.Length && DistinctIds(tab)
      ensures forall i :: 0 <= i < n ==> devs[i] == xs[i] && tab[i] == Snap(xs[i])
      ensures forall i :: n <= i < devs.Length ==> devs[i] == null
      ensures forall s :: s in tab ==> s.id < nextId
    {
    }

    /** wld_ad_getIndex. */
    method GetIndex(x: Station) returns (i: int)
      requires Rep()
      ensures if x in xs then 0 <= i < n && xs[i] == x else i == -1
    {
      hide ArrayRep, AllShow, IdsRep;
      Entries();
      for j := 0 to n
        invariant x !in xs[..j]
      {
        if x == devs[j] {
          return j;
        }
      }
      assert xs[..n] == xs;
      i := -1;
    }

    /** The first active station with the address. */
    ghost predicate IsFirstActive(mac: nat, x: Station)
      reads this`xs, xs
    {
      exists i :: 0 <= i < |xs| && xs[i] == x && x.mac == mac && x.active &&
        forall j :: 0 <= j < i ==> !(xs[j].mac == mac && xs[j].active)
    }

    /** s_findAssociatedDevice: the first entry with the address. */
    method FindAssociatedDevice(mac: nat, onlyActive: bool) returns (x: Station?)
      requires Rep()
      ensures |xs| == |tab|
      ensures !onlyActive ==> match FirstWith(tab, mac) case Some(i) => x == xs[i] case None => x == null
      ensures x != null ==> x in xs && x.mac == mac && (onlyActive ==> x.active)
      ensures x == null ==> forall s :: s in tab && s.mac == mac ==> onlyActive && !s.active
      ensures x != null && onlyActive ==> IsFirstActive(mac, x)
      ensures x == null ==> forall y :: y in xs ==> !IsFirstActive(mac, y)
    {
      hide ArrayRep, AllShow, IdsRep;
      Entries();
      for i := 0 to n
        invariant forall j :: 0 <= j < i && tab[j].mac == mac ==> onlyActive && !tab[j].active
      {
        var d := devs[i];
        if d.mac == mac && (!onlyActive || d.active) {
          assert onlyActive ==> forall j :: 0 <= j < i ==> !(tab[j].mac == mac && tab[j].active);
          return d;
        }
      }
      forall y | y in xs ensures !IsFirstActive(mac, y) {
        assert tab[IndexOf(xs, y)] in tab;
      }
      x := null;
    }

    // ---------- creating and destroying entries ----------

    /** wld_ad_destroy_associatedDevice. */
    method DestroyAssociatedDevice(index: nat)
      requires Rep() && index < devs.Length
      modifies this`n, this`nrActive, this`xs, this`tab, devs
      ensures Rep()
      ensures State() == if index < old(n) then R.Destroyed(old(State()), index) else old(State())
      ensures xs == if index < old(n) then old(xs)[..index] + old(xs)[index + 1..] else old(xs)
      ensures index < old(n) ==>
        forall k :: OnRadio(k) ==> T.ApNext(old(rad.Shows()), k, R.DestroyCall(index), rad.Shows())
    {
      hide ArrayRep, AllShow, IdsRep, Drop;
      DestroyEntry(index);
      forall k | index < old(n) && OnRadio(k) ensures T.ApNext(old(rad.Shows()), k, R.DestroyCall(index), rad.Shows()) {
        rad.OneChanged(k);
      }
    }

    method DestroyEntry(index: nat)
      requires Rep() && index < devs.Length
      modifies this`n, this`nrActive, this`xs, this`tab, devs
      ensures Rep() && old(n) == |old(tab)| == |old(xs)|
      ensures State() == if index < old(n) then R.Destroyed(old(State()), index) else old(State())
      ensures xs == if index < old(n) then old(xs)[..index] + old(xs)[index + 1..] else old(xs)
    {
      hide ArrayRep, AllShow, IdsRep, Drop, T.ApNext;
      Entries();
      if n == 0 || devs[index] == null {
        return;
      }
      if devs[index].active {
        nrActive := nrActive - 1;
      }
      Compact(index);
    }

    /** wld_ad_destroy: the entry goes if the data model lets go of its object. */
    method Destroy(x: Station) returns (ok: bool)
      requires Rep() && x in xs
      modifies this`n, this`nrActive, this`xs, this`tab, devs
      ensures Rep() && ok == x.removable
      ensures State() == if ok then R.Destroyed(old(State()), IndexOf(old(xs), x)) else old(State())
      ensures ok ==> tab == Drop(old(tab), {x.id})
      ensures forall y :: y in old(xs) && y != x ==> y in xs
      ensures forall y :: y in xs ==> y in old(xs)
      ensures !ok ==> xs == old(xs)
    {
      hide ArrayRep, AllShow, IdsRep, Drop, T.ApNext;
      if !x.removable {
        return false;
      }
      Entries();
      var i := GetIndex(x);
      OneIndex(x, i);
      assert xs == xs[..i] + [x] + xs[i + 1..];
      DestroyAssociatedDevice(i);
      ok := true;
    }

    /** A station has one index. */
    lemma OneIndex(x: Station, i: int)
      requires Rep() && 0 <= i < |xs| && xs[i] == x
      ensures IndexOf(xs, x) == i && i < |tab| && tab[i].id == x.id
    {
      hide ArrayRep;
    }

    /** The second half of wld_ad_create_associatedDevice: the check of the table's size, and the new entry. */
    method AppendAssociatedDevice(mac: nat, now: int) returns (x: Station?)
      requires Rep()
      modifies this`n, this`xs, this`tab, this`nextId, devs
      ensures Rep()
      ensures x == null <==> old(n) >= devs.Length
      ensures x == null ==> State() == old(State())
      ensures x != null ==> fresh(x) && xs == old(xs) + [x]
      ensures x != null ==> Snap(x) == Sta(old(nextId), mac, false, false, false, now, false, true)
      ensures x != null ==> State() == R.Appended(old(State()), Snap(x))
      ensures x != null ==> forall s :: s in old(tab) ==> s.id != x.id
    {
      hide IdsRep;
      Entries();
      if n >= devs.Length {
        return null;
      }
      x := new Station(nextId, mac, now);
      devs[n] := x;
      n := n + 1;
      xs := xs + [x];
      assert IdsRep(tab + [Snap(x)], nextId + 1) by { NewId(Snap(x)); }
      tab := tab + [Snap(x)];
      nextId := nextId + 1;
    }

    lemma NewId(s: Sta)
      requires IdsRep(tab, nextId) && s.id == nextId
      ensures IdsRep(tab + [s], nextId + 1)
    {
    }

    // ---------- wld_vap_cleanup_stationlist ----------

    /** The stations the clean-up looks at: the inactive ones, in table order. */
    method InactiveStations() returns (r: seq<Station>)
      requires Rep()
      ensures |r| == NrInactive(tab) && NoDup(r)
      ensures forall x :: x in r <==> x in xs && !x.active
    {
      hide ArrayRep, AllShow, IdsRep;
      Entries();
      r := [];
      for i := 0 to n
        invariant |r| == NrInactive(tab[..i]) && NoDup(r)
        invariant forall x :: x in r <==> x in xs[..i] && !x.active
      {
        assert tab[..i + 1][..i] == tab[..i] && xs[..i + 1] == xs[..i] + [xs[i]];
        if devs[i] != null && !devs[i].active {
          NotYetSeen(i);
          r := r + [devs[i]];
        }
      }
      assert xs[..n] == xs && tab[..n] == tab;
    }

    lemma NotYetSeen(i: nat)
      requires Rep() && i < |xs|
      ensures xs[i] !in xs[..i]
    {
      hide ArrayRep;
    }

    /** Sorted by age, the inactive stations show the inactive entries by age. */
    lemma ShowInactive(ys: seq<Station>)
      requires Rep() && |ys| == NrInactive(tab) && NoDup(ys)
      requires forall x :: x in ys <==> x in xs && !x.active
      requires forall i, j :: 0 <= i < j < |ys| ==> ys[i].changed <= ys[j].changed
      ensures InactiveByAge(tab, Snaps(ys))
    {
      hide ArrayRep, CountIf;
      var ss := Snaps(ys);
      forall i, j | 0 <= i < j < |ss| ensures ss[i].id != ss[j].id {
        assert ys[i] in xs && ys[j] in xs;
        OneIndex(ys[i], IndexOf(xs, ys[i]));
        OneIndex(ys[j], IndexOf(xs, ys[j]));
      }
      forall s | s in ss ensures s in tab && !s.active {
        var i :| 0 <= i < |ss| && ss[i] == s;
        assert ys[i] in xs;
        assert tab[IndexOf(xs, ys[i])] == Snap(ys[i]);
      }
      forall s | s in tab && !s.active ensures s in ss {
        var i :| 0 <= i < |tab| && tab[i] == s;
        assert xs[i] in ys;
        assert ss[IndexOf(ys, xs[i])] == s;
      }
    }

    /** wld_vap_cleanup_stationlist. */
    method CleanupStationList() returns (ok: bool)
      requires Rep()
      modifies this`n, this`nrActive, this`xs, this`tab, devs
      ensures Rep() && State() == old(State()).(tab := tab)
      ensures if ok then CleanedUp(old(tab), tab) else BrokenOff(old(tab), tab)
      ensures forall x :: x in xs ==> x in old(xs)
    {
      hide ArrayRep, AllShow, IdsRep, Drop, DistinctIds, CountIf, CleanedUp, BrokenOff, InactiveByAge, Removable,
        Evictable;
      ghost var tab0, xs0 := tab, xs;
      Entries();
      var inactive := InactiveStations();
      if |inactive| <= NR_OF_STICKY_UNAUTHORIZED_STATIONS {
        NothingToClean(tab);
        return true;
      }
      var sorted := Qsort(inactive);
      var last := |sorted| - NR_OF_STICKY_UNAUTHORIZED_STATIONS;
      ghost var ss := Snaps(sorted);
      ShowInactive(sorted);
      NothingRemoved(tab, ss);
      for i := 0 to last
        invariant Rep() && nrActive == old(nrActive)
        invariant tab == Drop(tab0, Removable(ss[..i]))
        invariant forall j :: i <= j < |sorted| ==> sorted[j] in xs
        invariant forall x :: x in xs ==> x in xs0
      {
        var sta := sorted[i];
        RemovableNext(ss, i);
        if !sta.pending {
          InactiveEntry(sta);
          ok := Destroy(sta);
          if !ok {
            StopsAt(tab0, ss, i);
            return;
          }
          DropTwice(tab0, Removable(ss[..i]), {sta.id});
        } else {
          assert Removable(ss[..i + 1]) == Removable(ss[..i]);
        }
      }
      AllButNewest(tab0, ss);
      ok := true;
    }

    lemma NothingToClean(tab: Table)
      requires NrInactive(tab) <= NR_OF_STICKY_UNAUTHORIZED_STATIONS
      ensures CleanedUp(tab, tab)
    {
    }

    lemma NothingRemoved(tab: Table, ss: seq<Sta>)
      ensures tab == Drop(tab, Removable(ss[..0]))
    {
      DropNone(tab, Removable(ss[..0]));
    }

    lemma InactiveEntry(x: Station)
      requires Rep() && x in xs && !x.active
      ensures IndexOf(xs, x) < |tab| && !tab[IndexOf(xs, x)].active
    {
      hide ArrayRep, DistinctIds;
    }

    // ---------- the steps of a station's life ----------

    /** The two access points share no array and no station. */
    ghost predicate Apart(owner: AccessPoint)
      reads this`xs, owner`xs
    {
      devs != owner.devs && forall y :: y in owner.xs ==> y !in xs
    }

    /** The table of `owner` lists the station: this access point, or one of a neighbour link,
        among whose stations only active ones are looked up. */
    ghost predicate Handles(owner: AccessPoint, x: Station)
      reads this, owner, owner.devs, owner.xs
    {
      owner.Rep() && x in owner.xs && (owner != this ==> Apart(owner) && x.active)
    }

    /** The station's own access point is this one, or not on this radio. */
    ghost predicate Alone(owner: AccessPoint)
      reads rad`aps
    {
      owner == this || owner !in rad.aps
    }

    /** wld_vap_syncNrDev. */
    method SyncNrDev()
      requires Rep()
      modifies this`nrActive, rad`currentStations
      ensures Rep() && State() == R.Synced(old(State()))
      ensures rad.currentStations == SumActive(rad.aps)
      ensures forall k :: OnRadio(k) ==> T.ApNext(old(rad.Shows()), k, R.SyncCall, rad.Shows())
    {
      hide ArrayRep, AllShow, IdsRep;
      var active := CountActive();
      nrActive := active;
      rad.UpdateActiveDevices();
      forall k | OnRadio(k) ensures T.ApNext(old(rad.Shows()), k, R.SyncCall, rad.Shows()) {
        rad.OneChanged(k);
      }
    }

    method CountActive() returns (active: int)
      requires Rep()
      ensures active == NrActive(tab)
    {
      hide ArrayRep, AllShow, IdsRep;
      Entries();
      active := 0;
      for i := 0 to n
        invariant active == NrActive(tab[..i])
      {
        assert tab[..i + 1][..i] == tab[..i];
        if devs[i].active {
          active := active + 1;
        }
      }
      assert tab[..n] == tab;
    }

    /** wld_ad_add_connection_try. */
    method AddConnectionTry(x: Station, ghost owner: AccessPoint, now: int)
      requires Rep() && Handles(owner, x)
      modifies this`tab, this`nrActive, this`attempts, rad`currentStations, x
      ensures Rep() && owner.Rep() && IndexOf(owner.xs, x) < |old(owner.tab)|
      ensures owner == this ==> State() == R.Try(old(State()), IndexOf(xs, x), now)
      ensures owner != this ==> State() == old(State()) && unchanged(x)
      ensures rad.currentStations == if old(x.active) then old(rad.currentStations) else SumActive(rad.aps)
      ensures owner == this ==>
        forall k :: OnRadio(k) ==> T.ApNext(old(rad.Shows()), k, R.TryCall(IndexOf(xs, x), now), rad.Shows())
    {
      hide ArrayRep, AllShow, IdsRep;
      owner.Entries();
      ghost var i := IndexOf(owner.xs, x);
      if x.active {
        if owner == this { R.TryActive(State(), i, now); }
      } else {
        Activate(x, now);
      }
      forall k | owner == this && OnRadio(k) ensures T.ApNext(old(rad.Shows()), k, R.TryCall(i, now), rad.Shows()) {
        rad.OneChanged(k);
      }
    }

    method Activate(x: Station, now: int)
      requires Rep() && x in xs && !x.active
      modifies this`tab, this`nrActive, this`attempts, rad`currentStations, x
      ensures Rep() && IndexOf(xs, x) < |old(tab)| && State() == R.Try(old(State()), IndexOf(xs, x), now)
      ensures rad.currentStations == SumActive(rad.aps)
    {
      hide ArrayRep, AllShow, IdsRep, T.ApNext;
      Entries();
      ghost var i := IndexOf(xs, x);
      WriteStation(this, i, x, true, false, false, now);
      attempts := attempts + 1;
      SyncNrDev();
    }

    /** wld_ad_add_connection_success: a call here, and for a neighbour's station one there. */
    method AddConnectionSuccess(x: Station, ghost owner: AccessPoint, now: int)
      requires Rep() && Handles(owner, x)
      modifies this`tab, this`nrActive, this`nrSuccess, this`attempts, rad`currentStations, owner`tab, x
      ensures Rep() && owner.Rep() && x.authed && (old(x.active) ==> x.active)
      ensures rad.currentStations == if old(x.active || x.authed) then old(rad.currentStations) else SumActive(rad.aps)
      ensures
        var i, e := IndexOf(owner.xs, x), R.Connects(now);
        var c := if owner == this then R.SuccessCall(i, now) else R.GuestCall(old(Snap(x)), e);
        && R.Next(old(State()), c, State())
        && (owner != this ==> R.Next(old(owner.State()), R.LentCall(i, e), owner.State()))
        && forall k :: OnRadio(k) && Alone(owner) ==> T.ApNext(old(rad.Shows()), k, c, rad.Shows())
    {
      hide ArrayRep, AllShow, IdsRep, R.Next, R.Syncs, R.Success, R.Charged, R.Lent;
      owner.Entries();
      ghost var st, so, i, s, e := State(), owner.State(), IndexOf(owner.xs, x), Snap(x), R.Connects(now);
      ghost var c := if owner == this then R.SuccessCall(i, now) else R.GuestCall(s, e);
      Succeed(x, owner, now);
      if owner == this {
        R.SuccessNext(st, i, now);
      } else {
        R.ChargedNext(st, s, e);
        R.LentNext(so, i, e);
      }
      forall k | OnRadio(k) && Alone(owner) ensures T.ApNext(old(rad.Shows()), k, c, rad.Shows()) {
        rad.OneChanged(k);
      }
    }

    method Succeed(x: Station, ghost owner: AccessPoint, now: int)
      requires Rep() && Handles(owner, x)
      modifies this`tab, this`nrActive, this`nrSuccess, this`attempts, rad`currentStations, owner`tab, x
      ensures Rep() && owner.Rep() && IndexOf(owner.xs, x) < |old(owner.tab)|
      ensures old(owner.tab)[IndexOf(owner.xs, x)] == old(Snap(x)) && x.authed && (old(x.active) ==> x.active)
      ensures owner == this ==> State() == R.Success(old(State()), IndexOf(xs, x), now)
      ensures owner != this ==> State() == R.Charged(old(State()), old(Snap(x)), R.Connects(now))
      ensures owner != this ==> owner.State() == R.Lent(old(owner.State()), IndexOf(owner.xs, x), R.Connects(now))
      ensures rad.currentStations == if old(x.active || x.authed) then old(rad.currentStations) else SumActive(rad.aps)
    {
      hide ArrayRep, AllShow, IdsRep, R.Try, T.ApNext;
      owner.Entries();
      ghost var i := IndexOf(owner.xs, x);
      if x.authed {
        if owner != this { SameEntry(owner, i); }
        return;
      }
      if !x.active {
        AddConnectionTry(x, owner, now);
      } else if owner == this {
        R.TryActive(State(), i, now);
      }
      Authenticate(x, owner, now);
    }

    method Authenticate(x: Station, ghost owner: AccessPoint, now: int)
      requires Rep() && owner.Rep() && x in owner.xs && (owner != this ==> Apart(owner))
      modifies this`nrSuccess, owner`tab, x
      ensures Rep() && owner.Rep() && IndexOf(owner.xs, x) < |old(owner.tab)| && x.authed && x.active == old(x.active)
      ensures nrSuccess == old(nrSuccess) + 1 && (owner != this ==> tab == old(tab))
      ensures
        var i := IndexOf(owner.xs, x);
        owner.tab == old(owner.tab)[i := R.Authenticated(old(owner.tab)[i], now)]
    {
      hide ArrayRep, AllShow, IdsRep;
      owner.Entries();
      WriteStation(owner, IndexOf(owner.xs, x), x, x.active, true, x.secFail, now);
      nrSuccess := nrSuccess + 1;
    }

    /** Writing back an entry changes nothing. */
    lemma SameEntry(owner: AccessPoint, i: nat)
      requires i < |owner.tab|
      ensures owner.tab[i := owner.tab[i]] == owner.tab
    {
    }

    /** s_add_dc_sta: a call here, and for a neighbour's station one there. */
    method AddDcSta(x: Station, ghost owner: AccessPoint, failSec: bool, now: int)
      requires Rep() && Handles(owner, x)
      modifies this`n, this`xs, this`tab, this`nrActive, this`nrFail, this`nrFailSecurity, this`nrDisconnect, devs,
        rad`currentStations, owner`tab, x
      ensures Rep() && owner.Rep() && forall y :: y in xs ==> y in old(xs)
      ensures rad.currentStations == if old(x.active) then SumActive(rad.aps) else old(rad.currentStations)
      ensures
        var i, e := IndexOf(old(owner.xs), x), R.Drops(failSec, now);
        var c := if owner == this then R.DropCall(i, failSec, now) else R.GuestCall(old(Snap(x)), e);
        && R.Next(old(State()), c, State())
        && (owner != this ==> R.Next(old(owner.State()), R.LentCall(i, e), owner.State()))
        && forall k :: OnRadio(k) && Alone(owner) ==> T.ApNext(old(rad.Shows()), k, c, rad.Shows())
    {
      hide ArrayRep, AllShow, IdsRep, R.Next, R.Syncs, R.Dropped, R.Visited, R.Lent;
      owner.Entries();
      ghost var st, so, i, s, e := State(), owner.State(), IndexOf(owner.xs, x), Snap(x), R.Drops(failSec, now);
      ghost var c := if owner == this then R.DropCall(i, failSec, now) else R.GuestCall(s, e);
      Disconnect(x, owner, failSec, now);
      if owner == this {
        R.DroppedNext(st, i, failSec, now, State());
      } else {
        R.VisitedNext(st, s, e, State());
        R.LentNext(so, i, e);
      }
      forall k | OnRadio(k) && Alone(owner) ensures T.ApNext(old(rad.Shows()), k, c, rad.Shows()) {
        rad.OneChanged(k);
      }
    }

    method Disconnect(x: Station, ghost owner: AccessPoint, failSec: bool, now: int)
      requires Rep() && Handles(owner, x)
      modifies this`n, this`xs, this`tab, this`nrActive, this`nrFail, this`nrFailSecurity, this`nrDisconnect, devs,
        rad`currentStations, owner`tab, x
      ensures Rep() && owner.Rep() && IndexOf(old(owner.xs), x) < |old(owner.tab)|
      ensures old(owner.tab)[IndexOf(old(owner.xs), x)] == old(Snap(x)) && forall y :: y in xs ==> y in old(xs)
      ensures owner == this ==> R.Dropped(old(State()), IndexOf(old(xs), x), failSec, now, State())
      ensures owner != this ==> R.Visited(old(State()), old(Snap(x)), R.Drops(failSec, now), State())
      ensures owner != this ==>
        owner.State() == R.Lent(old(owner.State()), IndexOf(owner.xs, x), R.Drops(failSec, now))
      ensures rad.currentStations == if old(x.active) then SumActive(rad.aps) else old(rad.currentStations)
    {
      hide ArrayRep, AllShow, IdsRep, CleanedUp, BrokenOff, T.ApNext, R.BeforeCleanup, R.ChargedDrop, R.Lent;
      owner.Entries();
      ghost var i, st := IndexOf(owner.xs, x), State();
      if !x.active {
        return;
      }
      Deactivate(x, owner, failSec, now);
      ghost var st1 := State();
      var _ := CleanupStationList();
      SyncNrDev();
      assert AfterCleanup(st1.tab, tab) && State() == R.Synced(st1.(tab := tab));
    }

    /** The counter that is charged, and the flags. */
    method Deactivate(x: Station, ghost owner: AccessPoint, failSec: bool, now: int)
      requires Rep() && Handles(owner, x) && x.active
      modifies this`nrFail, this`nrFailSecurity, this`nrDisconnect, owner`tab, x
      ensures Rep() && owner.Rep() && IndexOf(owner.xs, x) < |old(owner.tab)|
      ensures old(owner.tab)[IndexOf(owner.xs, x)] == old(Snap(x))
      ensures owner == this ==> State() == R.BeforeCleanup(old(State()), IndexOf(xs, x), failSec, now)
      ensures owner != this ==> State() == R.ChargedDrop(old(State()), old(Snap(x)), failSec)
      ensures owner != this ==>
        owner.State() == R.Lent(old(owner.State()), IndexOf(owner.xs, x), R.Drops(failSec, now))
    {
      hide ArrayRep, AllShow, IdsRep, R.ChargedDrop;
      owner.Entries();
      ghost var i := IndexOf(owner.xs, x);
      var secFail := Charge(x, failSec);
      WriteStation(owner, i, x, false, false, secFail, now);
    }

    method Charge(x: Station, failSec: bool) returns (secFail: bool)
      modifies this`nrFail, this`nrFailSecurity, this`nrDisconnect
      ensures State() == R.ChargedDrop(old(State()), Snap(x), failSec)
      ensures secFail == (x.secFail || (failSec && !x.authed))
    {
      secFail := x.secFail;
      if !x.authed && !x.secFail {
        if failSec {
          nrFailSecurity := nrFailSecurity + 1;
          secFail := true;
        } else {
          nrFail := nrFail + 1;
        }
      } else if x.authed {
        nrDisconnect := nrDisconnect + 1;
      }
    }

    /** wld_ad_add_sec_failNoDc: a call here, and for a neighbour's station one there. */
    method AddSecFailNoDc(x: Station, ghost owner: AccessPoint)
      requires Rep() && Handles(owner, x)
      modifies this`nrFailSecurity, owner`tab, x
      ensures Rep() && owner.Rep()
      ensures
        var i, e := IndexOf(owner.xs, x), R.FailsSecurity;
        var c := if owner == this then R.SecFailCall(i) else R.GuestCall(old(Snap(x)), e);
        && R.Next(old(State()), c, State())
        && (owner != this ==> R.Next(old(owner.State()), R.LentCall(i, e), owner.State()))
    {
      hide ArrayRep, AllShow, IdsRep, R.Next, R.SecFailNoDc, R.Charged, R.Lent;
      owner.Entries();
      ghost var st, so, i, s, e := State(), owner.State(), IndexOf(owner.xs, x), Snap(x), R.FailsSecurity;
      FailSecurity(x, owner);
      if owner == this {
        R.SecFailNext(st, i);
      } else {
        R.ChargedNext(st, s, e);
        R.LentNext(so, i, e);
      }
    }

    method FailSecurity(x: Station, ghost owner: AccessPoint)
      requires Rep() && Handles(owner, x)
      modifies this`nrFailSecurity, owner`tab, x
      ensures Rep() && owner.Rep() && IndexOf(owner.xs, x) < |old(owner.tab)|
      ensures old(owner.tab)[IndexOf(owner.xs, x)] == old(Snap(x))
      ensures owner == this ==> State() == R.SecFailNoDc(old(State()), IndexOf(xs, x))
      ensures owner != this ==> State() == R.Charged(old(State()), old(Snap(x)), R.FailsSecurity)
      ensures owner != this ==> owner.State() == R.Lent(old(owner.State()), IndexOf(owner.xs, x), R.FailsSecurity)
    {
      hide ArrayRep, AllShow, IdsRep;
      owner.Entries();
      ghost var i := IndexOf(owner.xs, x);
      if x.active && !x.secFail {
        nrFailSecurity := nrFailSecurity + 1;
        WriteStation(owner, i, x, x.active, x.authed, true, x.changed);
      } else if owner != this {
        SameEntry(owner, i);
      }
    }

    /** The rest of the handler of a new WDS interface, for the station it found or created:
        its flag is set, and the success that follows sees no attempt to make. */
    method WdsConnected(x: Station, ghost owner: AccessPoint, now: int)
      requires Rep() && Handles(owner, x)
      modifies this`tab, this`nrActive, this`nrSuccess, this`attempts, rad`currentStations, owner`tab, x
      ensures Rep() && owner.Rep() && x.active && x.authed
      ensures nrActive == old(nrActive) && rad.currentStations == old(rad.currentStations) && attempts == old(attempts)
      ensures
        var i, e := IndexOf(owner.xs, x), R.Connects(now);
        && i < |old(owner.tab)|
        && (owner == this ==> State() == R.Success(R.Raised(old(State()), i), i, now))
        && (owner != this ==> R.Next(old(State()), R.GuestCall(old(Snap(x)), e), State()))
        && (owner != this ==> R.Next(old(owner.State()), R.LentCall(i, e), owner.State()))
    {
      hide ArrayRep, AllShow, IdsRep, T.ApNext, R.Next, R.Lent, R.Charged;
      owner.Entries();
      ghost var i, s, e := IndexOf(owner.xs, x), Snap(x), R.Connects(now);
      Raise(x, owner);
      owner.Entries();
      ghost var st := State();
      AddConnectionSuccess(x, owner, now);
      if owner == this {
        R.NextSuccess(st, i, now, State());
      } else {
        R.NextCharged(st, s, e, State());
      }
    }

    /** What this event handler writes itself. */
    method Raise(x: Station, ghost owner: AccessPoint)
      requires Rep() && Handles(owner, x)
      modifies owner`tab, x
      ensures Rep() && Handles(owner, x) && IndexOf(owner.xs, x) < |old(owner.tab)| && x.active
      ensures owner == this ==> State() == R.Raised(old(State()), IndexOf(xs, x))
      ensures owner != this ==> State() == old(State()) && owner.State() == old(owner.State())
      ensures x.authed == old(x.authed) && (owner != this ==> Snap(x) == old(Snap(x)))
    {
      hide ArrayRep, AllShow, IdsRep;
      owner.Entries();
      ghost var i := IndexOf(owner.xs, x);
      WriteStation(owner, i, x, true, x.authed, x.secFail, x.changed);
      if owner != this { SameEntry(owner, i); }
    }

    /** s_setResetCounters_pwf. */
    method ResetCounters()
      requires Rep()
      modifies this`nrSuccess, this`nrFail, this`nrFailSecurity, this`nrDisconnect
      ensures Rep() && R.Next(old(State()), R.ResetCall, State())
    {
      hide ArrayRep, AllShow, IdsRep, R.Next;
      R.ResetNext(State());
      nrSuccess, nrFail, nrFailSecurity, nrDisconnect := 0, 0, 0, 0;
    }

    /** wld_vap_remove_all: the index descends from the initial count, while every
        disconnection may shorten the table under it. */
    method RemoveAll(now: int)
      requires Rep()
      modifies this`n, this`xs, this`tab, this`nrActive, this`nrFail, this`nrFailSecurity, this`nrDisconnect, devs,
        rad`currentStations, xs
      ensures Rep() && forall s :: s in tab ==> !s.active
      ensures
        || NrInactive(tab) <= NR_OF_STICKY_UNAUTHORIZED_STATIONS + CountIf(tab, (s: Sta) => !s.active && s.pending)
        || exists s :: s in tab && !s.pending && !s.removable
      ensures nrActive == if old(NrActive(tab)) == 0 then old(nrActive) else 0
      ensures old(rad.currentStations == SumActive(rad.aps)) ==> rad.currentStations == SumActive(rad.aps)
      ensures old(R.Shaped(State()) && R.Conserved(State())) ==> R.Shaped(State()) && R.Conserved(State())
      ensures old(R.Shaped(State())) ==>
        && nrDisconnect == old(nrDisconnect + R.NrAuthed(tab)) && nrFail == old(nrFail + R.NrUndecided(tab))
        && nrFailSecurity == old(nrFailSecurity) && nrSuccess == old(nrSuccess) && attempts == old(attempts)
    {
      hide ArrayRep, AllShow, IdsRep, R.Shaped, R.Conserved, R.Pays, CleanedUp, BrokenOff, T.ApNext, CountIf;
      ghost var st0 := State();
      DisconnectAll(now);
      ghost var st2 := State();
      if R.Shaped(st0) { R.AllPaid(st0, st2); }
      Entries();
      label Cleaning:
      var _ := CleanupStationList();
      SameSum@Cleaning(rad.aps);
      AfterCleanupPartly(st2.tab, tab);
      RestAfterCleanup(st2.tab, tab);
      EvictionKeepsInactiveFrom(st2.tab, tab, 0);
      if R.Shaped(st2) { R.CleanupKeeps(st2, tab); }
    }

    method DisconnectAll(now: int)
      requires Rep()
      modifies this`n, this`xs, this`tab, this`nrActive, this`nrFail, this`nrFailSecurity, this`nrDisconnect, devs,
        rad`currentStations, xs
      ensures Rep() && InactiveFrom(tab, 0)
      ensures nrActive == if old(NrActive(tab)) == 0 then old(nrActive) else 0
      ensures old(rad.currentStations == SumActive(rad.aps)) ==> rad.currentStations == SumActive(rad.aps)
      ensures old(R.Shaped(State()) && R.Conserved(State())) ==> R.Shaped(State()) && R.Conserved(State())
      ensures old(R.Shaped(State())) ==> R.Pays(old(State()), State())
      ensures forall y :: y in xs ==> y in old(xs)
    {
      hide ArrayRep, AllShow, IdsRep, R.Pays, R.Next, R.Shaped, R.Conserved, CleanedUp, BrokenOff, T.ApNext, CountIf,
        Disconnecting, InactiveFrom;
      Entries();
      NothingBehind(tab, n);
      NotYet(State());
      ghost var st0, xs0 := State(), xs;
      var totalNrDev := n;
      for i := 0 to totalNrDev
        invariant Rep() && InactiveFrom(tab, totalNrDev - i)
        invariant Disconnecting(st0, State())
        invariant old(rad.currentStations == SumActive(rad.aps)) ==> rad.currentStations == SumActive(rad.aps)
        invariant forall y :: y in xs ==> y in xs0
      {
        Entries();
        var x := devs[totalNrDev - 1 - i];
        if x != null && x.active {
          assert x in xs && x in old(xs);
          ghost var st1 := State();
          DisconnectAt(totalNrDev - 1 - i, x, now);
          OneMore(st0, st1, State());
        } else {
          NothingBehind(tab, totalNrDev - 1 - i);
        }
      }
      NoneIsActive(tab);
      AllDone(st0, State());
    }

    lemma NothingBehind(tab: Table, p: nat)
      requires p < |tab| ==> InactiveFrom(tab, p + 1) && !tab[p].active
      ensures InactiveFrom(tab, p)
    {
    }

    /** While stations are disconnected: nothing has happened yet, or the counter is recounted. */
    ghost predicate Disconnecting(st0: R.ApState, st: R.ApState) {
      && (st == st0 || (NrActive(st0.tab) > 0 && st.nrActive == NrActive(st.tab)))
      && (R.Shaped(st0) && R.Conserved(st0) ==> R.Shaped(st) && R.Conserved(st))
      && (R.Shaped(st0) ==> R.Pays(st0, st) && R.Shaped(st))
    }

    lemma NotYet(st: R.ApState)
      ensures Disconnecting(st, st)
    {
    }

    lemma OneMore(st0: R.ApState, st: R.ApState, r: R.ApState)
      requires Disconnecting(st0, st) && r.nrActive == NrActive(r.tab) && NrActive(st.tab) > 0
      requires R.Shaped(st) && R.Conserved(st) ==> R.Shaped(r) && R.Conserved(r)
      requires R.Shaped(st) ==> R.Pays(st, r)
      ensures Disconnecting(st0, r)
    {
      hide R.Shaped, R.Conserved, CountIf;
    }

    lemma AllDone(st0: R.ApState, st: R.ApState)
      requires Disconnecting(st0, st) && NrActive(st.tab) == 0
      ensures st.nrActive == if NrActive(st0.tab) == 0 then st0.nrActive else 0
      ensures R.Shaped(st0) && R.Conserved(st0) ==> R.Shaped(st) && R.Conserved(st)
      ensures R.Shaped(st0) ==> R.Pays(st0, st)
    {
      hide R.Shaped, R.Conserved, CountIf;
    }

    method DisconnectAt(ghost p: nat, x: Station, now: int)
      requires Rep() && p < |xs| && xs[p] == x && x.active && InactiveFrom(tab, p + 1)
      modifies this`n, this`xs, this`tab, this`nrActive, this`nrFail, this`nrFailSecurity, this`nrDisconnect, devs,
        rad`currentStations, x
      ensures Rep() && InactiveFrom(tab, p) && nrActive == NrActive(tab) && old(NrActive(tab)) > 0
      ensures rad.currentStations == SumActive(rad.aps)
      ensures old(R.Shaped(State()) && R.Conserved(State())) ==> R.Shaped(State()) && R.Conserved(State())
      ensures old(R.Shaped(State())) ==> R.Pays(old(State()), State())
      ensures forall y :: y in xs ==> y in old(xs)
    {
      hide ArrayRep, AllShow, IdsRep, R.Pays, R.Next, R.Shaped, R.Conserved, T.ApNext, CountIf;
      Entries();
      ghost var st := State();
      OneIndex(x, p);
      AddDcSta(x, this, false, now);
      R.NextDropped(st, p, false, now, State());
      R.DropFrom(st, p, false, now, State());
      DropCounts(st, p, now, State());
    }

    /** A disconnection of an active station recounts, and keeps the balance. */
    lemma DropCounts(st: R.ApState, i: nat, now: int, r: R.ApState)
      requires i < |st.tab| && st.tab[i].active && R.Dropped(st, i, false, now, r)
      ensures r.nrActive == NrActive(r.tab) && NrActive(st.tab) > 0
      ensures R.Shaped(st) && R.Conserved(st) ==> R.Shaped(r) && R.Conserved(r)
      ensures R.Shaped(st) ==> R.Pays(st, r)
    {
      assert st.tab[i] in st.tab;
      CountIfBound(st.tab, (s: Sta) => s.active);
      hide R.Shaped, R.Conserved, CountIf, AfterCleanup;
      if R.Shaped(st) {
        R.DropKeeps(st, i, false, now, r);
        R.DropPays(st, i, now, r);
      }
    }

    lemma NoneIsActive(tab: Table)
      requires InactiveFrom(tab, 0)
      ensures NrActive(tab) == 0
    {
      CountIfBound(tab, (s: Sta) => s.active);
    }

    // ---------- find or create ----------

    method WriteFlags(ghost i: nat, x: Station, pending: bool, removable: bool)
      requires Rep() && i < |xs| && xs[i] == x
      modifies this`tab, x`pending, x`removable
      ensures Rep() && i < |old(tab)|
      ensures tab == old(tab)[i := old(tab)[i].(pending := pending, removable := removable)]
      ensures x.pending == pending && x.removable == removable
    {
      hide ArrayRep;
      x.pending, x.removable := pending, removable;
      tab := tab[i := tab[i].(pending := pending, removable := removable)];
    }

    /** wld_ad_startDelayDisassocNotifTimer and wld_ad_clearDelayedDisassocNotifTimer. */
    method SetPending(x: Station, pending: bool)
      requires Rep() && x in xs
      modifies this`tab, x`pending, x`removable
      ensures Rep() && R.Next(old(State()), R.NotifyCall(IndexOf(xs, x), pending), State())
    {
      hide ArrayRep, AllShow, IdsRep;
      Entries();
      WriteFlags(IndexOf(xs, x), x, pending, x.removable);
    }

    /** The data model takes or lets go of its hold on a station's object. */
    method SetRemovable(x: Station, removable: bool)
      requires Rep() && x in xs
      modifies this`tab, x`pending, x`removable
      ensures Rep() && R.Next(old(State()), R.HoldCall(IndexOf(xs, x), removable), State())
    {
      hide ArrayRep, AllShow, IdsRep;
      Entries();
      WriteFlags(IndexOf(xs, x), x, x.pending, removable);
    }

    /** wld_ad_finalizeDelayedDisassocNotif and its timer handler, for this access point. */
    method FinalizeDelayedDisassocNotif(mac: nat)
      requires Rep()
      modifies this`n, this`nrActive, this`xs, this`tab, devs, xs`pending, xs`removable
      ensures Rep() && State() == old(State()).(tab := tab)
      ensures Finalized(old(tab), mac, tab)
    {
      hide ArrayRep, AllShow, IdsRep, CleanedUp, BrokenOff;
      Entries();
      var x := FindAssociatedDevice(mac, false);
      if x != null && x.pending {
        WriteFlags(FirstWith(tab, mac).value, x, false, x.removable);
        var _ := CleanupStationList();
      }
    }

    /** An entry for the address as it is created now. */
    ghost function NewEntry(mac: nat, now: int): Sta
      reads this`nextId
    {
      Sta(nextId, mac, false, false, false, now, false, true)
    }

    /** wld_ad_create_associatedDevice. */
    method CreateAssociatedDevice(mac: nat, now: int) returns (x: Station?)
      requires Rep()
      modifies this`n, this`nrActive, this`xs, this`tab, this`nextId, devs, xs`pending, xs`removable
      ensures Rep()
      ensures R.New(old(State()), old(NewEntry(mac, now)))
      ensures R.Created(old(State()), old(NewEntry(mac, now)), devs.Length, State())
      ensures x == null <==> old(NewEntry(mac, now)) !in tab
      ensures x != null ==> fresh(x) && x in xs && Snap(x) == old(NewEntry(mac, now))
    {
      hide ArrayRep, AllShow, IdsRep, Finalized;
      Entries();
      ghost var s := NewEntry(mac, now);
      FinalizeDelayedDisassocNotif(mac);
      Entries();
      x := AppendAssociatedDevice(mac, now);
      assert x != null ==> tab[|tab| - 1] == s;
    }

    /** A neighbour's first active station with the address, connected through this access point as well. */
    ghost predicate Offers(a: AccessPoint, mac: nat, y: Station)
      reads a`xs, a.xs, y
    {
      a != this && y in a.xs && a.IsFirstActive(mac, y) && this in y.affiliated
    }

    ghost predicate Elsewhere(neighbours: seq<AccessPoint>, mac: nat)
      reads *
    {
      exists a, y :: a in neighbours && y in a.xs && Offers(a, mac, y)
    }

    /** s_findMldAssociatedDevice. */
    method FindMldAssociatedDevice(neighbours: seq<AccessPoint>, mac: nat) returns (x: Station?)
      requires forall a :: a in neighbours ==> a.Rep()
      ensures x == null <==> !Elsewhere(neighbours, mac)
      ensures x != null ==> exists a :: a in neighbours && x in a.xs && Offers(a, mac, x)
    {
      hide ArrayRep, AllShow, IdsRep;
      for i := 0 to |neighbours|
        invariant !Elsewhere(neighbours[..i], mac)
      {
        var pAfAp := neighbours[i];
        assert neighbours[..i + 1] == neighbours[..i] + [pAfAp];
        if pAfAp == this {
          continue;
        }
        var pAD := pAfAp.FindAssociatedDevice(mac, true);
        if pAD != null && this in pAD.affiliated {
          assert Offers(pAfAp, mac, pAD);
          return pAD;
        }
        OneFirstActive(pAfAp, mac, pAD);
      }
      assert neighbours[..|neighbours|] == neighbours;
      x := null;
    }

    /** wld_vap_find_asociatedDevice. */
    method FindAnyDevice(mac: nat, neighbours: seq<AccessPoint>) returns (x: Station?)
      requires Rep() && forall a :: a in neighbours ==> a.Rep()
      ensures mac == BROADCAST ==> x == null
      ensures mac != BROADCAST && Elsewhere(neighbours, mac) ==>
        exists a :: a in neighbours && x != null && x in a.xs && Offers(a, mac, x)
      ensures |xs| == |tab|
      ensures mac != BROADCAST && !Elsewhere(neighbours, mac) ==>
        match FirstWith(tab, mac) case Some(i) => x == xs[i] case None => x == null
    {
      hide ArrayRep, AllShow, IdsRep, Elsewhere, Offers;
      Entries();
      if mac == BROADCAST {
        return null;
      }
      x := FindMldAssociatedDevice(neighbours, mac);
      if x == null {
        x := FindAssociatedDevice(mac, false);
      }
    }

    lemma OneFirstActive(a: AccessPoint, mac: nat, x: Station?)
      requires x != null ==> a.IsFirstActive(mac, x) && this !in x.affiliated
      requires x == null ==> forall y :: y in a.xs ==> !a.IsFirstActive(mac, y)
      ensures forall y :: y in a.xs ==> !Offers(a, mac, y)
    {
    }

    /** wld_vap_findOrCreateAssociatedDevice. */
    method FindOrCreate(mac: nat, neighbours: seq<AccessPoint>, now: int) returns (x: Station?)
      requires Rep() && forall a :: a in neighbours ==> a.Rep()
      modifies this`n, this`nrActive, this`xs, this`tab, this`nextId, devs, xs`pending, xs`removable
      ensures Rep() && n <= devs.Length && |old(xs)| == |old(tab)|
      ensures
        var s, elsewhere := old(NewEntry(mac, now)), old(Elsewhere(neighbours, mac));
        R.Next(old(State()), R.FindCall(s, elsewhere, devs.Length), State())
      ensures
        var s, first := old(NewEntry(mac, now)), FirstWith(old(tab), mac);
        if mac != BROADCAST && old(Elsewhere(neighbours, mac))
        then exists a :: a in neighbours && x != null && x in old(a.xs) && old(allocated(x)) && old(Offers(a, mac, x))
        else if mac != BROADCAST && first.Some? then x == old(xs)[first.value]
        else (x == null <==> s !in tab) && (x != null ==> fresh(x) && x in xs && Snap(x) == s)
      ensures old(DistinctMacs(tab)) && mac != BROADCAST ==> DistinctMacs(tab)
      ensures old(DistinctMacs(tab)) && mac == BROADCAST ==>
        exists tab1 :: Finalized(old(tab), mac, tab1) &&
          (DistinctMacs(tab) <==> |tab1| >= devs.Length || FirstWith(tab1, mac).None?)
    {
      hide ArrayRep, AllShow, IdsRep, Finalized, DistinctMacs, R.Shaped, Elsewhere, Offers;
      Entries();
      ghost var st, s := State(), NewEntry(mac, now);
      x := FindAnyDevice(mac, neighbours);
      if x != null {
        return;
      }
      x := CreateAssociatedDevice(mac, now);
      if DistinctMacs(st.tab) {
        ghost var tab1 := R.CreationMacsExactly(st, s, devs.Length, State());
        if mac != BROADCAST { NotListed(st.tab, mac, tab1); }
      }
      Entries();
    }

    lemma NotListed(tab: Table, mac: nat, r: Table)
      requires FirstWith(tab, mac).None? && Finalized(tab, mac, r)
      ensures r == tab
    {
    }

    // ---------- admission ----------

    /** s_setMaxStations_pwf of an access point; `maxNrSta` is the configured maximum of all of them. */
    method SetMaxStations(flag: int, maxNrSta: int)
      modifies this`maxStations
      ensures
        var cap := A.Max(rad.maxStations, maxNrSta);
        if flag == old(maxStations) || 0 < flag <= cap then maxStations == flag else maxStations == cap
      ensures forall k :: OnRadio(k) ==> T.Next(old(rad.Shows()), T.ApLimitCall(k, maxStations), rad.Shows())
    {
      var cap := A.Max(rad.maxStations, maxNrSta);
      if maxStations != flag {
        maxStations := if flag > cap || flag <= 0 then cap else flag;
      }
      forall k: nat | OnRadio(k) ensures T.Next(old(rad.Shows()), T.ApLimitCall(k, maxStations), rad.Shows()) {
        assert ShowAps(rad.aps) == old(ShowAps(rad.aps))[k := old(ShowAps(rad.aps))[k].(limit := maxStations)];
      }
    }

    /** wld_ap_getMaxNbrSta. */
    method GetMaxNbrSta() returns (r: nat)
      ensures r == A.MaxNbrSta(maxStations, nrActive, rad.currentStations, T.Limits(rad.maxStations, rad.maxNrHwSta))
    {
      var curMaxNumSta := if maxStations < 0 then rad.maxNrHwSta else maxStations;
      if rad.maxStations > 0 && rad.maxStations - rad.currentStations < curMaxNumSta - nrActive {
        curMaxNumSta := nrActive + rad.maxStations - rad.currentStations;
      }
      r := if curMaxNumSta < 0 then 0 else curMaxNumSta;
    }
  }

  ghost function Snaps(ys: seq<Station>): (r: seq<Sta>)
    reads ys
    ensures |r| == |ys| && forall i :: 0 <= i < |ys| ==> r[i] == Snap(ys[i])
  {
    seq(|ys|, i requires 0 <= i < |ys| reads ys => Snap(ys[i]))
  }

  ghost predicate ByAge(r: seq<Station>)
    reads r
  {
    forall i, j :: 0 <= i < j < |r| ==> r[i].changed <= r[j].changed
  }

  /** The library sort with s_inactAdCmp: any permutation, oldest change first. */
  method Qsort(ys: seq<Station>) returns (r: seq<Station>)
    ensures |r| == |ys| && (forall x :: x in r <==> x in ys) && (NoDup(ys) ==> NoDup(r))
    ensures forall i, j :: 0 <= i < j < |r| ==> r[i].changed <= r[j].changed
  {
    r := [];
    for i := 0 to |ys|
      invariant |r| == i && (forall x :: x in r <==> x in ys[..i]) && (NoDup(ys) ==> NoDup(r))
      invariant ByAge(r)
    {
      hide ByAge;
      assert ys[..i + 1] == ys[..i] + [ys[i]];
      r := SortIn(r, ys[i]);
    }
    assert ys[..|ys|] == ys;
  }

  method SortIn(r: seq<Station>, y: Station) returns (s: seq<Station>)
    requires ByAge(r)
    ensures ByAge(s) && |s| == |r| + 1 && (forall x :: x in s <==> x in r || x == y)
    ensures NoDup(r) && y !in r ==> NoDup(s)
  {
    hide ByAge;
    var k := |r|;
    while k > 0 && y.changed < r[k - 1].changed
      invariant 0 <= k <= |r|
      invariant k < |r| ==> y.changed < r[k].changed
    {
      k := k - 1;
    }
    InsertByAge(r, k, y);
    if NoDup(r) && y !in r { InsertNoDup(r, k, y); }
    s := InsertAt(r, k, y);
  }

  lemma InsertByAge(r: seq<Station>, k: nat, y: Station)
    requires ByAge(r) && k <= |r|
    requires (k > 0 ==> r[k - 1].changed <= y.changed) && (k < |r| ==> y.changed < r[k].changed)
    ensures ByAge(InsertAt(r, k, y))
  {
    hide InsertAt;
    var s := InsertAt(r, k, y);
    forall i, j | 0 <= i < j < |s| ensures s[i].changed <= s[j].changed {
      var x, z := if i < k then i else i - 1, if j < k then j else j - 1;
      assert i != k ==> s[i] == r[x];
      assert j != k ==> s[j] == r[z];
    }
  }

  /** Entries behind `index` move one slot towards the front. */
  method ShiftDown(devs: array<Station?>, index: nat, n: nat)
    requires index < n <= devs.Length
    modifies devs
    ensures forall j :: 0 <= j < index ==> devs[j] == old(devs[j])
    ensures forall j :: index <= j < n - 1 ==> devs[j] == old(devs[j + 1])
    ensures forall j :: n <= j < devs.Length ==> devs[j] == old(devs[j])
  {
    for i := index to n - 1
      invariant forall j :: 0 <= j < index ==> devs[j] == old(devs[j])
      invariant forall j :: index <= j < i ==> devs[j] == old(devs[j + 1])
      invariant forall j :: i <= j < devs.Length ==> devs[j] == old(devs[j])
    {
      devs[i] := devs[i + 1];
    }
  }
}
