/** The enable flags of an SSID and of its interface (access point or endpoint), and the
    timer that copies one to the other. */
module EnableSync {
  import opened Collections

  datatype Mode = Off | ToIntf | FromIntf | Mirrored

  /** wld_config_isEnableSyncNeeded. */
  predicate SyncNeeded(mode: Mode, toIntf: bool) {
    mode == Mirrored || mode == if toIntf then ToIntf else FromIntf
  }

  /** `nrEnables` counts the SSID's changes to enabled. */
  datatype Sync = Sync(ssid: bool, intf: bool, toIntf: bool, timer: bool, nrEnables: nat)

  const INIT := Sync(false, false, false, false, 0)

  /** wld_ssid_syncEnable. */
  function Synced(mode: Mode, s: Sync, toIntf: bool): Sync {
    if s.intf == s.ssid then s.(timer := false)
    else if !SyncNeeded(mode, toIntf) then s
    else s.(toIntf := toIntf, timer := true)
  }

  /** A write of the SSID's flag. */
  function SsidWritten(mode: Mode, s: Sync, v: bool): Sync {
    if v == s.ssid then s
    else Synced(mode, s.(ssid := v, nrEnables := s.nrEnables + if v then 1 else 0), true)
  }

  /** A write of the interface's flag. */
  function IntfWritten(mode: Mode, s: Sync, v: bool): Sync {
    if v == s.intf then s else Synced(mode, s.(intf := v), false)
  }

  /** s_syncEnable: the timer expires, and the copied flag goes through the handler of its write. */
  function Expired(mode: Mode, s0: Sync): Sync {
    var s := s0.(timer := false);
    if s.intf == s.ssid || !SyncNeeded(mode, s.toIntf) then s
    else if s.toIntf then IntfWritten(mode, s, s.ssid)
    else SsidWritten(mode, s, s.intf)
  }

  class EnablePair {
    var mode: Mode
    var ssidEnable: bool
    var intfEnable: bool
    var syncEnableToIntf: bool
    var timerRunning: bool
    var nrEnables: nat

    constructor (mode: Mode)
      ensures Value() == INIT && this.mode == mode
    {
      this.mode := mode;
      ssidEnable, intfEnable, syncEnableToIntf, timerRunning, nrEnables := false, false, false, false, 0;
    }

    function Value(): Sync
      reads this
    {
      Sync(ssidEnable, intfEnable, syncEnableToIntf, timerRunning, nrEnables)
    }

    /** wld_ssid_syncEnable. */
    method SyncEnable(toIntf: bool)
      modifies this`syncEnableToIntf, this`timerRunning
      ensures Value() == Synced(mode, old(Value()), toIntf)
      ensures timerRunning <==> ssidEnable != intfEnable && (SyncNeeded(mode, toIntf) || old(timerRunning))
      ensures ssidEnable != intfEnable && SyncNeeded(mode, toIntf) ==> syncEnableToIntf == toIntf
    {
      if intfEnable == ssidEnable {
        timerRunning := false;
        return;
      }
      if !SyncNeeded(mode, toIntf) {
        return;
      }
      syncEnableToIntf := toIntf;
      if timerRunning {
        return;
      }
      timerRunning := true;
    }

    /** s_setEnable_pwf of the SSID, with s_setEnable_internal. */
    method SetSsidEnable(v: bool)
      modifies this`ssidEnable, this`nrEnables, this`syncEnableToIntf, this`timerRunning
      ensures Value() == SsidWritten(mode, old(Value()), v)
      ensures ssidEnable == v && nrEnables == old(nrEnables) + (if v && !old(ssidEnable) then 1 else 0)
      ensures v == old(ssidEnable) ==> timerRunning == old(timerRunning) && syncEnableToIntf == old(syncEnableToIntf)
      ensures v != old(ssidEnable) ==>
        (timerRunning <==> ssidEnable != intfEnable && (SyncNeeded(mode, true) || old(timerRunning)))
    {
      if v == ssidEnable {
        return;
      }
      ssidEnable := v;
      if v {
        nrEnables := nrEnables + 1;
      }
      SyncEnable(true);
    }

    /** s_setApEnable_pwf, and its like for an endpoint. */
    method SetIntfEnable(v: bool)
      modifies this`intfEnable, this`syncEnableToIntf, this`timerRunning
      ensures Value() == IntfWritten(mode, old(Value()), v)
      ensures intfEnable == v
      ensures v == old(intfEnable) ==> timerRunning == old(timerRunning) && syncEnableToIntf == old(syncEnableToIntf)
      ensures v != old(intfEnable) ==>
        (timerRunning <==> ssidEnable != intfEnable && (SyncNeeded(mode, false) || old(timerRunning)))
    {
      if v == intfEnable {
        return;
      }
      intfEnable := v;
      SyncEnable(false);
    }

    /** s_syncEnable, run by the timer. */
    method Expire()
      requires timerRunning
      modifies this`ssidEnable, this`intfEnable, this`nrEnables, this`syncEnableToIntf, this`timerRunning
      ensures Value() == Expired(mode, old(Value()))
      ensures !timerRunning
      ensures ssidEnable == old(if !syncEnableToIntf && SyncNeeded(mode, false) then intfEnable else ssidEnable)
      ensures intfEnable == old(if syncEnableToIntf && SyncNeeded(mode, true) then ssidEnable else intfEnable)
    {
      timerRunning := false;
      if intfEnable == ssidEnable {
        return;
      }
      if !SyncNeeded(mode, syncEnableToIntf) {
        return;
      }
      if syncEnableToIntf {
        SetIntfEnable(ssidEnable);
      } else {
        SetSsidEnable(intfEnable);
      }
    }
  }

  // ---------- runs ----------

  datatype Act = WriteSsid(v: bool) | WriteIntf(v: bool) | Expire

  /** Writes from outside, handled one at a time, and expiries of a running timer. */
  function Step(mode: Mode, s: Sync, a: Act): Sync {
    match a
    case WriteSsid(v) => SsidWritten(mode, s, v)
    case WriteIntf(v) => IntfWritten(mode, s, v)
    case Expire => if s.timer then Expired(mode, s) else s
  }

  function Run(mode: Mode, acts: seq<Act>): Sync {
    if acts == [] then INIT else Step(mode, Run(mode, acts[..|acts| - 1]), acts[|acts| - 1])
  }

  /** The last write from outside that changed a flag: was it to the SSID, and which value. */
  function LastWrite(mode: Mode, acts: seq<Act>): Option<(bool, bool)> {
    if acts == [] then None
    else
      var prev, a := acts[..|acts| - 1], acts[|acts| - 1];
      if a.WriteSsid? && a.v != Run(mode, prev).ssid then Some((true, a.v))
      else if a.WriteIntf? && a.v != Run(mode, prev).intf then Some((false, a.v))
      else LastWrite(mode, prev)
  }

  /** The flags differ only after a write, whose value its side still shows; the timer runs
      exactly when they differ and the mode copies in the direction of that write, and then
      it is about to copy in that direction. */
  lemma {:induction false} TimerFollowsLastWriter(mode: Mode, acts: seq<Act>)
    ensures
      var s, w := Run(mode, acts), LastWrite(mode, acts);
      && (w.None? ==> s == INIT)
      && (w.Some? ==> (if w.value.0 then s.ssid else s.intf) == w.value.1)
      && (s.timer <==> w.Some? && s.ssid != s.intf && SyncNeeded(mode, w.value.0))
      && (s.timer ==> s.toIntf == w.value.0)
  {
    if acts != [] {
      TimerFollowsLastWriter(mode, acts[..|acts| - 1]);
    }
  }

  /** One expiry makes both flags equal to the value written last, and starts no timer. */
  lemma ExpirySettles(mode: Mode, acts: seq<Act>)
    requires Run(mode, acts).timer
    ensures
      var s := Run(mode, acts + [Expire]);
      && LastWrite(mode, acts).Some?
      && s.ssid == s.intf == LastWrite(mode, acts).value.1
      && !s.timer
  {
    TimerFollowsLastWriter(mode, acts);
    assert (acts + [Expire])[..|acts|] == acts;
  }

  /** Whether the mode copies the last write. */
  predicate Copies(mode: Mode, w: Option<(bool, bool)>) {
    match mode
    case Off => false
    case ToIntf => w.Some? && w.value.0
    case FromIntf => w.Some? && !w.value.0
    case Mirrored => true
  }

  /** The timer by mode: mirrored flags are copied whenever they differ, in the one-way modes
      only the side that is copied from can start a copy, and without synchronisation none runs. */
  lemma TimerByMode(mode: Mode, acts: seq<Act>)
    ensures
      var s, w := Run(mode, acts), LastWrite(mode, acts);
      s.timer <==> s.ssid != s.intf && Copies(mode, w)
  {
    TimerFollowsLastWriter(mode, acts);
    hide LastWrite, Run;
  }

  /** In mirrored mode the flags agree whenever no timer runs. */
  lemma IdleMirroredAgrees(acts: seq<Act>)
    requires !Run(Mirrored, acts).timer
    ensures Run(Mirrored, acts).ssid == Run(Mirrored, acts).intf
  {
    TimerFollowsLastWriter(Mirrored, acts);
  }

  /** The number of times the SSID's flag rose along the run. */
  function Rises(mode: Mode, acts: seq<Act>): nat {
    if acts == [] then 0
    else
      var prev := acts[..|acts| - 1];
      Rises(mode, prev) + if !Run(mode, prev).ssid && Run(mode, acts).ssid then 1 else 0
  }

  lemma {:induction false} EnablesAreRises(mode: Mode, acts: seq<Act>)
    ensures Run(mode, acts).nrEnables == Rises(mode, acts)
  {
    if acts != [] {
      EnablesAreRises(mode, acts[..|acts| - 1]);
    }
  }
}
