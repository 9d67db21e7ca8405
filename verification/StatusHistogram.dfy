/** The time an SSID or a radio spends in each status. */
module StatusHistogram {

  const RST_MAX := 7

  /** A 32-bit addition. */
  function AddWord(a: int, d: int): (r: int)
    ensures 0 <= r < WORD
    ensures 0 <= a + d < WORD ==> r == a + d
  {
    (a + d) % WORD
  }

  type Status = s: nat | s < RST_MAX witness 0

  /** The buckets are 32-bit counters. */
  const WORD := 0x1_0000_0000

  datatype Info = Info(data: seq<int>, last: int, status: Status, lastChange: int, nrChanges: nat)

  function Fresh(status: Status, now: int): Info {
    Info([0, 0, 0, 0, 0, 0, 0], 0, status, now, 0)
  }

  /** wld_util_updateStatusChangeInfo: the time since the last update goes to the bucket of `status`. */
  function Charged(i: Info, status: Status, now: int): Info
    requires |i.data| == RST_MAX
  {
    if i.last == 0 then i.(last := now)
    else i.(data := i.data[status := AddWord(i.data[status], now - i.last)], last := now)
  }

  /** wld_ssid_setStatus. */
  function StatusSet(i: Info, status: Status, now: int): Info
    requires |i.data| == RST_MAX
  {
    var i1 := Charged(i, i.status, now);
    if i.status == status then i1 else i1.(status := status, lastChange := now, nrChanges := i.nrChanges + 1)
  }

  const RST_ERROR: Status := 0
  const RST_DORMANT: Status := 3
  const RST_UNKNOWN: Status := 4
  const RST_DOWN: Status := 5
  const RST_UP: Status := 6

  const CM_RAD_UNKNOWN := 0
  const CM_RAD_DOWN := 1
  const CM_RAD_FG_CAC := 3
  const CM_RAD_DEEP_POWER_DOWN := 9
  const CM_RAD_ERROR := 11
  const CM_RAD_MAX := 12

  /** The status a radio takes: `idle` when it is enabled with all its interfaces disabled,
      `up` when the driver reports it up. */
  function RadioStatus(idle: bool, up: bool, detailed: nat): Status {
    if idle || detailed == CM_RAD_FG_CAC then RST_DORMANT
    else if detailed == CM_RAD_DOWN || !up || detailed == CM_RAD_DEEP_POWER_DOWN then RST_DOWN
    else if detailed == CM_RAD_UNKNOWN then RST_UNKNOWN
    else if detailed >= CM_RAD_MAX || detailed == CM_RAD_ERROR then RST_ERROR
    else RST_UP
  }

  const CM_RAD_UP := 2
  const CM_RAD_BG_CAC := 4
  const CM_RAD_BG_CAC_EXT := 5
  const CM_RAD_BG_CAC_NS := 6
  const CM_RAD_BG_CAC_EXT_NS := 7
  const CM_RAD_CONFIGURING := 8
  const CM_RAD_DELAY_AP_UP := 10

  /** The detailed states of a radio that works or is about to. */
  const WORKING := {CM_RAD_UP, CM_RAD_BG_CAC, CM_RAD_BG_CAC_EXT, CM_RAD_BG_CAC_NS, CM_RAD_BG_CAC_EXT_NS,
    CM_RAD_CONFIGURING, CM_RAD_DELAY_AP_UP}

  /** Each status by what it takes: an idle radio is dormant whatever else holds, and of the
      others only one that the driver reports up is anything but dormant or down. */
  lemma RadioStatusExactly(idle: bool, up: bool, detailed: nat)
    ensures
      var s, off := RadioStatus(idle, up, detailed), {CM_RAD_DOWN, CM_RAD_DEEP_POWER_DOWN};
      && (s == RST_UP <==> !idle && up && detailed in WORKING)
      && (s == RST_DORMANT <==> idle || detailed == CM_RAD_FG_CAC)
      && (s == RST_DOWN <==> !idle && detailed != CM_RAD_FG_CAC && (!up || detailed in off))
      && (s == RST_UNKNOWN <==> !idle && up && detailed == CM_RAD_UNKNOWN)
      && (s == RST_ERROR <==> !idle && up && detailed >= CM_RAD_ERROR)
  {
  }

  class ChangeInfo {
    const data: array<int>
    var last: int
    var status: Status
    var lastChange: int
    var nrChanges: nat

    constructor (status: Status, now: int)
      ensures Value() == Fresh(status, now) && data.Length == RST_MAX && fresh(data)
    {
      data := new int[RST_MAX](_ => 0);
      this.status, last, lastChange, nrChanges := status, 0, now, 0;
    }

    function Value(): Info
      reads this, data
    {
      Info(data[..], last, status, lastChange, nrChanges)
    }

    /** wld_util_updateStatusChangeInfo. */
    method UpdateStatusChangeInfo(charge: Status, now: int)
      requires data.Length == RST_MAX
      modifies this`last, data
      ensures Value() == Charged(old(Value()), charge, now)
      ensures last == now && forall k :: 0 <= k < RST_MAX && k != charge ==> data[k] == old(data[k])
      ensures data[charge] == if old(last) == 0 then old(data[charge]) else AddWord(old(data[charge]), now - old(last))
    {
      if last == 0 {
        last := now;
        return;
      }
      var timeDiff := now - last;
      data[charge] := AddWord(data[charge], timeDiff);
      last := now;
    }

    /** wld_ssid_setStatus. */
    method SetStatus(s: Status, now: int)
      requires data.Length == RST_MAX
      modifies this`last, this`status, this`lastChange, this`nrChanges, data
      ensures Value() == StatusSet(old(Value()), s, now)
      ensures status == s && last == now && forall k :: 0 <= k < RST_MAX && k != old(status) ==> data[k] == old(data[k])
      ensures s == old(status) ==> lastChange == old(lastChange) && nrChanges == old(nrChanges)
      ensures s != old(status) ==> lastChange == now && nrChanges == old(nrChanges) + 1
    {
      UpdateStatusChangeInfo(status, now);
      if status == s {
        return;
      }
      lastChange := now;
      nrChanges := nrChanges + 1;
      status := s;
    }

    /** The status step of wld_rad_updateState: for the histogram it is one more setting of a status. */
    method UpdateRadioState(idle: bool, up: bool, detailedState: nat, now: int)
      requires data.Length == RST_MAX
      modifies this`last, this`status, this`lastChange, this`nrChanges, data
      ensures Value() == StatusSet(old(Value()), RadioStatus(idle, up, detailedState), now)
      ensures last == now && forall k :: 0 <= k < RST_MAX && k != old(status) ==> data[k] == old(data[k])
      ensures nrChanges == old(nrChanges) + if status == old(status) then 0 else 1
    {
      var detailed := if detailedState >= CM_RAD_MAX then CM_RAD_ERROR else detailedState;
      UpdateStatusChangeInfo(status, now);
      var oldStatus := status;
      if idle || detailed == CM_RAD_FG_CAC {
        status := RST_DORMANT;
      } else if detailed == CM_RAD_DOWN || !up || detailed == CM_RAD_DEEP_POWER_DOWN {
        status := RST_DOWN;
      } else if detailed == CM_RAD_UNKNOWN {
        status := RST_UNKNOWN;
      } else if detailed == CM_RAD_ERROR {
        status := RST_ERROR;
      } else {
        status := RST_UP;
      }
      if oldStatus != status {
        lastChange := now;
        nrChanges := nrChanges + 1;
      }
    }

    /** _SSID_getStatusHistogram. */
    method GetStatusHistogram(now: int) returns (r: seq<int>)
      requires data.Length == RST_MAX
      modifies this`last, data
      ensures Value() == Charged(old(Value()), old(status), now) && r == Value().data
    {
      UpdateStatusChangeInfo(status, now);
      r := data[..];
    }
  }

  // ---------- runs ----------

  datatype Event = Set(at: int, status: Status) | Read(at: int)

  function Run(init: Info, evs: seq<Event>): (r: Info)
    requires |init.data| == RST_MAX
    ensures |r.data| == RST_MAX
  {
    if evs == [] then init else Applied(Run(init, evs[..|evs| - 1]), evs[|evs| - 1])
  }

  function Applied(i: Info, e: Event): Info
    requires |i.data| == RST_MAX
  {
    match e
    case Set(at, s) => StatusSet(i, s, at)
    case Read(at) => Charged(i, i.status, at)
  }

  /** The clock is positive and never goes back. */
  ghost predicate Clocked(evs: seq<Event>) {
    && (forall i :: 0 <= i < |evs| ==> evs[i].at > 0)
    && (forall i, j :: 0 <= i < j < |evs| ==> evs[i].at <= evs[j].at)
  }

  /** The status at an instant: what the last event up to then had set. */
  function StatusAt(init: Status, evs: seq<Event>, t: int): Status {
    if evs == [] then init
    else
      var e := evs[|evs| - 1];
      if e.Set? && e.at <= t then e.status else StatusAt(init, evs[..|evs| - 1], t)
  }

  /** The number of instants in [from, until) at which the status is `s`. */
  function TimeIn(init: Status, evs: seq<Event>, s: Status, from: int, until: int): nat
    decreases until - from
  {
    if until <= from then 0
    else TimeIn(init, evs, s, from, until - 1) + if StatusAt(init, evs, until - 1) == s then 1 else 0
  }

  /** An event changes no status before its time. */
  lemma {:induction false} TimeInBefore(init: Status, evs: seq<Event>, s: Status, from: int, until: int)
    requires evs != [] && until <= evs[|evs| - 1].at
    ensures TimeIn(init, evs, s, from, until) == TimeIn(init, evs[..|evs| - 1], s, from, until)
    decreases until - from
  {
    if until > from {
      TimeInBefore(init, evs, s, from, until - 1);
    }
  }

  /** A stretch of constant status. */
  lemma {:induction false} TimeInConstant(init: Status, evs: seq<Event>, s: Status, from: int, mid: int, until: int,
    c: Status)
    requires from <= mid <= until && forall t :: mid <= t < until ==> StatusAt(init, evs, t) == c
    ensures TimeIn(init, evs, s, from, until) == TimeIn(init, evs, s, from, mid) + if s == c then until - mid else 0
    decreases until - mid
  {
    if until > mid {
      TimeInConstant(init, evs, s, from, mid, until - 1, c);
    }
  }

  /** After the last event the status is the stored one. */
  lemma {:induction false} StatusIsStored(init: Info, evs: seq<Event>, t: int)
    requires |init.data| == RST_MAX && Clocked(evs) && (evs != [] ==> t >= evs[|evs| - 1].at)
    ensures StatusAt(init.status, evs, t) == Run(init, evs).status
  {
    if evs != [] {
      assert |evs| > 1 ==> evs[|evs| - 2].at <= evs[|evs| - 1].at;
      StatusIsStored(init, evs[..|evs| - 1], t);
    }
  }

  lemma StatusStays(init: Info, evs: seq<Event>, until: int)
    requires |init.data| == RST_MAX && Clocked(evs) && evs != []
    ensures forall t :: evs[|evs| - 1].at <= t < until ==> StatusAt(init.status, evs, t) == Run(init, evs).status
  {
    hide Run, StatusAt;
    forall t | evs[|evs| - 1].at <= t < until ensures StatusAt(init.status, evs, t) == Run(init, evs).status {
      StatusIsStored(init, evs, t);
    }
  }

  lemma {:induction false} LastIsStored(status: Status, now: int, evs: seq<Event>)
    requires evs != [] && Clocked(evs)
    ensures Run(Fresh(status, now), evs).last == evs[|evs| - 1].at
  {
    if |evs| > 1 {
      LastIsStored(status, now, evs[..|evs| - 1]);
    }
  }

  /** One event charges the stored status and no other. */
  lemma {:induction false} BucketStep(init: Info, prev: seq<Event>, e: Event, s: Status)
    requires |init.data| == RST_MAX && Run(init, prev).last != 0
    ensures
      var i := Run(init, prev);
      Run(init, prev + [e]).data[s] == if s == i.status then AddWord(i.data[s], e.at - i.last) else i.data[s]
  {
    assert (prev + [e])[..|prev|] == prev;
    assert Run(init, prev + [e]) == Applied(Run(init, prev), e);
    hide Run, AddWord;
  }

  lemma FirstBucket(status: Status, now: int, e: Event, s: Status)
    ensures Run(Fresh(status, now), [e]).data[s] == 0
  {
    assert [e][..0] == [];
    assert Run(Fresh(status, now), []) == Fresh(status, now);
  }

  lemma AddInWord(a: nat, d: nat)
    ensures AddWord(AddWord(0, a), d) == AddWord(0, a + d)
  {
  }

  /** One more event adds the time since the one before it to the bucket of the stored status. */
  lemma BucketsNext(status: Status, now: int, prev: seq<Event>, e: Event, s: Status)
    requires prev != [] && Clocked(prev + [e])
    requires Run(Fresh(status, now), prev).last == prev[|prev| - 1].at
    ensures
      var mid, c := prev[|prev| - 1].at, Run(Fresh(status, now), prev).status;
      && Run(Fresh(status, now), prev + [e]).data[s] ==
         (if s == c then AddWord(Run(Fresh(status, now), prev).data[s], e.at - mid)
           else Run(Fresh(status, now), prev).data[s])
      && TimeIn(status, prev + [e], s, prev[0].at, e.at) ==
         TimeIn(status, prev, s, prev[0].at, mid) + (if s == c then e.at - mid else 0)
  {
    hide Run, TimeIn, StatusAt, AddWord;
    var init, evs, n := Fresh(status, now), prev + [e], |prev|;
    assert evs[..n] == prev && evs[n] == e;
    assert forall i {:trigger prev[i]} :: 0 <= i < n ==> prev[i] == evs[i];
    assert prev[0].at <= prev[n - 1].at <= e.at && prev[n - 1].at > 0;
    StatusStays(init, prev, e.at);
    BucketStep(init, prev, e, s);
    TimeInBefore(status, evs, s, prev[0].at, e.at);
    TimeInConstant(status, prev, s, prev[0].at, prev[n - 1].at, e.at, Run(init, prev).status);
  }

  /** Each bucket holds the time spent in its status between the first and the last update,
      in the 32 bits it has. */
  lemma {:induction false} BucketsMeasureTime(status: Status, now: int, evs: seq<Event>, s: Status)
    requires evs != [] && Clocked(evs)
    ensures Run(Fresh(status, now), evs).data[s] == AddWord(0, TimeIn(status, evs, s, evs[0].at, evs[|evs| - 1].at))
  {
    hide Run, StatusAt, AddWord;
    var n := |evs| - 1;
    var prev, e := evs[..n], evs[n];
    assert evs == prev + [e];
    if n == 0 {
      FirstBucket(status, now, e, s);
      AddNothing();
    } else {
      BucketsMeasureTime(status, now, prev, s);
      LastIsStored(status, now, prev);
      BucketsNext(status, now, prev, e, s);
      AddInWord(TimeIn(status, prev, s, evs[0].at, evs[n - 1].at), e.at - evs[n - 1].at);
    }
  }

  lemma AddNothing()
    ensures AddWord(0, 0) == 0
  {
  }

  function Sum(xs: seq<int>): int {
    if xs == [] then 0 else Sum(xs[..|xs| - 1]) + xs[|xs| - 1]
  }

  /** The times spent in the statuses below `k`. */
  function TimesBelow(init: Status, evs: seq<Event>, from: int, until: int, k: nat): int
    requires k <= RST_MAX
  {
    if k == 0 then 0 else TimesBelow(init, evs, from, until, k - 1) + TimeIn(init, evs, k - 1, from, until)
  }

  lemma {:induction false} TimesStep(init: Status, evs: seq<Event>, from: int, until: int, k: nat)
    requires k <= RST_MAX && from < until
    ensures TimesBelow(init, evs, from, until, k) ==
            TimesBelow(init, evs, from, until - 1, k) + if StatusAt(init, evs, until - 1) < k then 1 else 0
  {
    if k > 0 { TimesStep(init, evs, from, until, k - 1); }
  }

  /** The times spent in all statuses add up to the elapsed time. */
  lemma {:induction false} TimesAddUp(init: Status, evs: seq<Event>, from: int, until: int)
    requires from <= until
    ensures TimesBelow(init, evs, from, until, RST_MAX) == until - from
    decreases until - from
  {
    if from < until {
      TimesAddUp(init, evs, from, until - 1);
      TimesStep(init, evs, from, until, RST_MAX);
    } else {
      NoTime(init, evs, from, RST_MAX);
    }
  }

  lemma {:induction false} NoTime(init: Status, evs: seq<Event>, at: int, k: nat)
    requires k <= RST_MAX
    ensures TimesBelow(init, evs, at, at, k) == 0
  {
    if k > 0 { NoTime(init, evs, at, k - 1); }
  }

  lemma {:induction false} PrefixSum(xs: seq<int>, init: Status, evs: seq<Event>, from: int, until: int, k: nat)
    requires |xs| == RST_MAX && k <= RST_MAX
    requires forall s: Status :: xs[s] == TimeIn(init, evs, s, from, until)
    ensures Sum(xs[..k]) == TimesBelow(init, evs, from, until, k)
  {
    if k > 0 {
      assert xs[..k][..k - 1] == xs[..k - 1];
      PrefixSum(xs, init, evs, from, until, k - 1);
    }
  }

  lemma {:induction false} TimeInBound(init: Status, evs: seq<Event>, s: Status, from: int, until: int)
    requires from <= until
    ensures TimeIn(init, evs, s, from, until) <= until - from
    decreases until - from
  {
    if from < until { TimeInBound(init, evs, s, from, until - 1); }
  }

  /** The buckets add up to the time between the first and the last update, as long as that fits 32 bits. */
  lemma BucketsAddUp(status: Status, now: int, evs: seq<Event>)
    requires evs != [] && Clocked(evs) && evs[|evs| - 1].at - evs[0].at < WORD
    ensures Sum(Run(Fresh(status, now), evs).data) == evs[|evs| - 1].at - evs[0].at
  {
    var data, from, until := Run(Fresh(status, now), evs).data, evs[0].at, evs[|evs| - 1].at;
    assert |data| == RST_MAX;
    hide Run, TimeIn, Sum, TimesBelow, AddWord;
    assert from <= until;
    forall s: Status ensures data[s] == TimeIn(status, evs, s, from, until) {
      BucketsMeasureTime(status, now, evs, s);
      TimeInBound(status, evs, s, from, until);
    }
    PrefixSum(data, status, evs, from, until, RST_MAX);
    assert data[..RST_MAX] == data;
    TimesAddUp(status, evs, from, until);
  }
}
